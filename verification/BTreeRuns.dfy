// Whole runs: any sequence of updates on trees that share nodes, and any walk of an iterator.

module BTreeRuns {
  import opened Bytes
  import opened Entries
  import opened BTreeValue
  import opened NodeGraph
  import opened TreeSteps
  import opened BTrees
  import opened BTreeIters

  datatype Op =
    | OpSet(item: Entry)
    | OpLoad(item: Entry)
    | OpDelete(key: Buffer)
    | OpPop(last: bool)

  /** One update of an ordered list, without any tree. */
  ghost function Applied(c: seq<Entry>, op: Op): seq<Entry> {
    match op
    case OpSet(item) => Put(c, item)
    case OpLoad(item) => Put(c, item)
    case OpDelete(key) => if Has(c, key) then Without(c, Rank(c, key)) else c
    case OpPop(last) => if c == [] then [] else Without(c, if last then |c| - 1 else 0)
  }

  ghost function AppliedAll(c: seq<Entry>, ops: seq<Op>): seq<Entry> {
    if ops == [] then c else Applied(AppliedAll(c, ops[..|ops| - 1]), ops[|ops| - 1])
  }

  /** The updates in plain words, on an ordered list: a set adds its entry and takes out the one with the same key, a
      delete takes out the entry with its key, and a pop the last or the first one. */
  lemma AppliedMeans(c: seq<Entry>, op: Op)
    requires Sorted(c)
    ensures Sorted(Applied(c, op))
    ensures op.OpSet? || op.OpLoad? ==>
      forall x :: x in Applied(c, op) <==> x == op.item || (x in c && x.key != op.item.key)
    ensures op.OpDelete? ==> forall x :: x in Applied(c, op) <==> x in c && x.key != op.key
    ensures op.OpPop? ==> Applied(c, op) == if c == [] then [] else if op.last then c[..|c| - 1] else c[1..]
  {
    hide Less, Rank, Put, Without;
    match op {
      case OpSet(item) => SetMembers(c, item);
      case OpLoad(item) => SetMembers(c, item);
      case OpDelete(key) => DeleteMembers(c, key);
      case OpPop(last) => if c != [] { PopEnds(c, last); }
    }
  }

  lemma SetMembers(c: seq<Entry>, e: Entry)
    requires Sorted(c)
    ensures Sorted(Put(c, e)) && forall x :: x in Put(c, e) <==> x == e || (x in c && x.key != e.key)
  {
    hide Sorted;
    PutSorted(c, e);
    forall x ensures x in Put(c, e) <==> x == e || (x in c && x.key != e.key) { PutMembers(c, e, x); }
  }

  lemma DeleteMembers(c: seq<Entry>, k: Buffer)
    requires Sorted(c)
    ensures var d := if Has(c, k) then Without(c, Rank(c, k)) else c;
      Sorted(d) && forall x :: x in d <==> x in c && x.key != k
  {
    hide Less, Rank, Without;
    HasIff(c, k);
    if Has(c, k) {
      var r := Rank(c, k);
      SortedWithout(c, r);
      forall x ensures x in Without(c, r) <==> x in c && x.key != k {
        WithoutMembers(c, r, x);
        if x in c && x.key == k { var i :| 0 <= i < |c| && c[i] == x; }
      }
    } else {
      forall x | x in c ensures x.key != k { var i :| 0 <= i < |c| && c[i] == x; }
    }
  }

  lemma PopEnds(c: seq<Entry>, last: bool)
    requires Sorted(c) && c != []
    ensures var d := Without(c, if last then |c| - 1 else 0); Sorted(d) && d == if last then c[..|c| - 1] else c[1..]
  {
    SortedWithout(c, if last then |c| - 1 else 0);
  }

  /** What a removal hands back: the entry that it takes out, and nothing when it leaves the list as it is. */
  lemma RemovalMeans(c: seq<Entry>, c': seq<Entry>, act: Act, prev: Option<Entry>)
    requires Sorted(c) && BTree.Removal(c, c', act, prev)
    ensures prev.None? ==> c' == c && if act.DelKey? then forall x :: x in c ==> x.key != act.key else c == []
    ensures prev.Some? ==> |c'| + 1 == |c| && forall x :: x in c' <==> x in c && x != prev.value
    ensures prev.Some? ==>
      match act
      case DelKey(k) => prev.value in c && prev.value.key == k
      case PopFront => c != [] && prev.value == c[0] && c' == c[1..]
      case _ => c != [] && prev.value == c[|c| - 1] && c' == c[..|c| - 1]
  {
    hide Less, Rank, Without, Sorted;
    if act.DelKey? { HasIff(c, act.key); DeleteMembers(c, act.key); }
    if prev.Some? {
      var v := Victim(c, act).value;
      forall x ensures x in c' <==> x in c && x != prev.value { WithoutMembers(c, v, x); }
      WithoutMembers(c, v, prev.value);
      if act.PopFront? { PopEnds(c, false); } else if !act.DelKey? { PopEnds(c, true); }
    }
  }

  /** What a look-up or a set hands back: the entry with the key, when there is one. */
  lemma PreviousIs(s: seq<Entry>, k: Buffer, e: Entry)
    requires Sorted(s)
    ensures BTree.Previous(s, k) == Some(e) <==> e in s && e.key == k
    ensures BTree.Previous(s, k) == None <==> forall x :: x in s ==> x.key != k
  {
    hide Less, Rank, Sorted;
    HasIff(s, k);
    forall x | x in s && x.key == k ensures Has(s, k) && x == s[Rank(s, k)] { var i :| 0 <= i < |s| && s[i] == x; }
  }

  /** A run is made up of its parts. */
  lemma {:induction false} RunParts(c: seq<Entry>, a: seq<Op>, b: seq<Op>)
    ensures AppliedAll(c, a + b) == AppliedAll(AppliedAll(c, a), b)
    ensures AppliedAll(c, []) == c && forall op :: AppliedAll(c, [op]) == Applied(c, op)
  {
    hide Applied;
    forall op ensures AppliedAll(c, [op]) == Applied(c, op) { assert [op][..0] == []; }
    if b == [] {
      assert a + b == a;
    } else {
      RunParts(c, a, b[..|b| - 1]);
      assert (a + b)[..|a + b| - 1] == a + b[..|b| - 1];
    }
  }

  /** A removal by key or at an end, as an update of the list. */
  lemma RemovalApplied(c: seq<Entry>, c': seq<Entry>, op: Op, prev: Option<Entry>)
    requires op.OpDelete? || op.OpPop?
    requires BTree.Removal(c, c', if op.OpDelete? then DelKey(op.key) else if op.last then PopBack else PopFront, prev)
    ensures c' == Applied(c, op)
  {
    hide Sorted;
  }

  method Apply(tree: BTree, op: Op)
    requires tree.heap.Ok() && tree in tree.heap.trees
    modifies tree`root, tree`count, tree`height, tree.heap`s, tree.heap.s.g.Keys
    ensures tree.heap.Ok() && tree.OnlyThis() && tree.OnlyFresh()
    ensures tree.Items() == Applied(old(tree.Items()), op)
  {
    hide BTree.Removal;
    ghost var c := tree.Items();
    var prev;
    match op {
      case OpSet(item) => prev := tree.Set(item);
      case OpLoad(item) => prev := tree.Load(item);
      case OpDelete(key) =>
        prev := tree.Delete0(DelKey(key));
        RemovalApplied(c, tree.Items(), op, prev);
      case OpPop(last) =>
        prev := tree.Pop(last);
        RemovalApplied(c, tree.Items(), op, prev);
    }
  }

  /** Any run of updates on one tree: its list is updated like a plain list, and no other tree notices. */
  method Run(tree: BTree, ops: seq<Op>)
    requires tree.heap.Ok() && tree in tree.heap.trees
    modifies tree`root, tree`count, tree`height, tree.heap`s, tree.heap.s.g.Keys
    ensures tree.heap.Ok() && tree.OnlyThis() && tree.OnlyFresh()
    ensures tree.Items() == AppliedAll(old(tree.Items()), ops)
  {
    hide Applied, Heap.Ok, BTree.Items;
    var i := 0;
    while i < |ops|
      invariant 0 <= i <= |ops|
      invariant tree.heap.Ok() && tree in tree.heap.trees && tree.OnlyThis() && tree.OnlyFresh()
      invariant tree.Items() == AppliedAll(old(tree.Items()), ops[..i])
    {
      Apply(tree, ops[i]);
      assert ops[..i + 1][..i] == ops[..i];
      i := i + 1;
    }
    assert ops[..i] == ops;
  }

  /** A clone and its original can each be updated at will: neither sees what happens to the other. */
  method RunBoth(tree: BTree, ops: seq<Op>, ops2: seq<Op>) returns (tree2: BTree)
    requires tree.heap.Ok() && tree in tree.heap.trees
    modifies tree, tree.heap, tree.heap.s.g.Keys
    ensures tree.heap.Ok() && tree2.heap == tree.heap && tree in tree.heap.trees && tree2 in tree.heap.trees
    ensures tree.Items() == AppliedAll(old(tree.Items()), ops)
    ensures tree2.Items() == AppliedAll(old(tree.Items()), ops2)
  {
    hide AppliedAll;
    tree2 := tree.Clone();
    Run(tree, ops);
    Run(tree2, ops2);
  }

  /** One step of a history over numbered trees; a clone gets the next number. */
  datatype Step =
    | Update(tree: nat, op: Op)
    | CloneOf(tree: nat)

  /** The step on plain lists. */
  ghost function Stepped(lists: seq<seq<Entry>>, step: Step): seq<seq<Entry>> {
    if step.tree >= |lists| then lists
    else
      match step
      case Update(i, op) => lists[i := Applied(lists[i], op)]
      case CloneOf(i) => lists + [lists[i]]
  }

  ghost function SteppedAll(lists: seq<seq<Entry>>, steps: seq<Step>): seq<seq<Entry>> {
    if steps == [] then lists else Stepped(SteppedAll(lists, steps[..|steps| - 1]), steps[|steps| - 1])
  }

  /** A step updates one list and leaves the others alone, or adds a copy of one of them. */
  lemma SteppedMeans(lists: seq<seq<Entry>>, step: Step)
    ensures step.tree >= |lists| ==> Stepped(lists, step) == lists
    ensures step.tree < |lists| ==>
      var more := Stepped(lists, step);
      && |more| == |lists| + (if step.CloneOf? then 1 else 0)
      && (forall i :: 0 <= i < |lists| && (step.CloneOf? || i != step.tree) ==> more[i] == lists[i])
      && (step.CloneOf? ==> more[|lists|] == lists[step.tree])
      && (step.Update? ==> more[step.tree] == AppliedAll(lists[step.tree], [step.op]))
  {
    if step.Update? && step.tree < |lists| { RunParts(lists[step.tree], [], []); }
  }

  /** A history is made up of its parts. */
  lemma {:induction false} HistoryParts(lists: seq<seq<Entry>>, a: seq<Step>, b: seq<Step>)
    ensures SteppedAll(lists, a + b) == SteppedAll(SteppedAll(lists, a), b)
    ensures SteppedAll(lists, []) == lists && forall step :: SteppedAll(lists, [step]) == Stepped(lists, step)
  {
    hide Stepped;
    forall step ensures SteppedAll(lists, [step]) == Stepped(lists, step) { assert [step][..0] == []; }
    if b == [] {
      assert a + b == a;
    } else {
      HistoryParts(lists, a, b[..|b| - 1]);
      assert (a + b)[..|a + b| - 1] == a + b[..|b| - 1];
    }
  }

  /** The trees are different users of the shared memory, and each holds its list. */
  ghost predicate Hold(trees: seq<BTree>, heap: Heap, lists: seq<seq<Entry>>)
    reads heap
  {
    && |lists| == |trees|
    && (forall i :: 0 <= i < |trees| ==>
          trees[i].heap == heap && trees[i] in heap.trees && Contents(heap.s, trees[i]) == lists[i])
    && forall i, j :: 0 <= i < j < |trees| ==> trees[i] != trees[j]
  }

  method TakeStep(trees0: seq<BTree>, step: Step, ghost heap: Heap, ghost lists: seq<seq<Entry>>)
    returns (trees: seq<BTree>)
    requires heap.Ok() && Hold(trees0, heap, lists)
    modifies trees0, heap, heap.s.g.Keys
    ensures heap.Ok() && Hold(trees, heap, Stepped(lists, step))
    ensures |trees0| <= |trees| && trees[..|trees0|] == trees0
    ensures forall i :: |trees0| <= i < |trees| ==> fresh(trees[i])
    ensures forall b :: b in old(heap.trees) && b !in trees0 ==>
      b in heap.trees && Contents(heap.s, b) == old(Contents(heap.s, b))
    ensures forall n :: n in heap.s.g && n !in old(heap.s.g) ==> fresh(n)
  {
    hide Heap.Ok, Applied, Contents;
    trees := trees0;
    if step.tree < |trees| {
      var tree := trees[step.tree];
      match step {
        case Update(_, op) => Apply(tree, op);
        case CloneOf(_) =>
          var tree2 := tree.Clone();
          trees := trees + [tree2];
      }
    }
  }

  /** Any interleaved history of updates and clones over any number of trees: every tree holds what its own plain list
      would hold, and trees outside the history do not change. */
  method RunHistory(trees0: seq<BTree>, steps: seq<Step>, ghost heap: Heap, ghost lists: seq<seq<Entry>>)
    returns (trees: seq<BTree>)
    requires heap.Ok() && Hold(trees0, heap, lists)
    modifies trees0, heap, heap.s.g.Keys
    ensures heap.Ok() && Hold(trees, heap, SteppedAll(lists, steps))
    ensures forall b :: b in old(heap.trees) && b !in trees0 ==>
      b in heap.trees && Contents(heap.s, b) == old(Contents(heap.s, b))
  {
    hide Heap.Ok, Hold, Stepped, Contents;
    trees := trees0;
    var i := 0;
    while i < |steps|
      invariant 0 <= i <= |steps| && heap.Ok() && Hold(trees, heap, SteppedAll(lists, steps[..i]))
      invariant |trees0| <= |trees| && trees[..|trees0|] == trees0
      invariant forall j :: |trees0| <= j < |trees| ==> fresh(trees[j])
      invariant forall b :: b in old(heap.trees) && b !in trees0 ==>
        b in heap.trees && Contents(heap.s, b) == old(Contents(heap.s, b))
      invariant forall n :: n in heap.s.g && n !in old(heap.s.g) ==> fresh(n)
    {
      assert steps[..i + 1][..i] == steps[..i];
      trees := TakeStep(trees, steps[i], heap, SteppedAll(lists, steps[..i]));
      i := i + 1;
    }
    assert steps[..i] == steps;
  }

  /** udx_btree_new as a new user of the shared memory: an empty tree, and no other tree notices. */
  method NewTree(maxItems: nat, ghost heap: Heap) returns (tree: BTree)
    requires heap.Ok()
    modifies heap`trees
    ensures fresh(tree) && tree.heap == heap && heap.Ok() && heap.trees == old(heap.trees) + {tree}
    ensures heap.s == old(heap.s) && tree.Items() == [] && tree.maxItems == BTree.Normalised(maxItems)
  {
    tree := new BTree(maxItems, heap);
    heap.trees := heap.trees + {tree};
  }

  /** The entries of a tree are in strcmp order. */
  lemma TreeInOrder(iter: Iter)
    requires iter.Tied()
    ensures var c := iter.btree.Items();
      forall i, j, k ::
        0 <= i < j < |c| && 0 <= k <= |c[i].key| && k <= |c[j].key| && c[i].key[..k] == c[j].key[..k]
        ==> k < |c[j].key| && (k < |c[i].key| ==> c[i].key[k] <= c[j].key[k])
  {
    hide Less, Linked, AllFaithful, Shape;
    SortedMeans(iter.btree.Items());
  }

  /** Next, from a fresh iterator until it reports the end, hands out every entry once and in strcmp order. */
  method Collect(iter: Iter) returns (c: seq<Entry>)
    requires iter.Tied() && !iter.seeked
    modifies iter
    ensures c == iter.btree.Items()
    ensures forall i, j, k ::
      0 <= i < j < |c| && 0 <= k <= |c[i].key| && k <= |c[j].key| && c[i].key[..k] == c[j].key[..k]
      ==> k < |c[j].key| && (k < |c[i].key| ==> c[i].key[k] <= c[j].key[k])
  {
    hide Iter.Tied, Iter.Standing, BTree.Items;
    c := [];
    var ok := iter.Next();
    ghost var p := 0;
    while ok
      invariant iter.Tied() && 0 <= p <= |iter.btree.Items()|
      invariant ok == (p < |iter.btree.Items()|) && (ok ==> iter.Standing(p))
      invariant c == iter.btree.Items()[..p]
      decreases |iter.btree.Items()| - p
    {
      iter.Stands(p);
      c := c + [iter.item];
      ok := iter.Next();
      p := p + 1;
    }
    TreeInOrder(iter);
  }

  /** The same from the other end. */
  method CollectBack(iter: Iter) returns (c: seq<Entry>)
    requires iter.Tied()
    modifies iter
    ensures c == iter.btree.Items()
  {
    hide Iter.Tied, Iter.Standing, Iter.CanStep, BTree.Items;
    c := [];
    var ok := iter.Edge(true);
    ghost var p := |iter.btree.Items()|;
    while ok
      invariant iter.Tied() && 0 <= p <= |iter.btree.Items()|
      invariant ok == (0 < p) && (ok ==> iter.Standing(p - 1))
      invariant |c| == |iter.btree.Items()| - p && forall k :: 0 <= k < |c| ==> c[k] == iter.btree.Items()[p + k]
      decreases p
    {
      iter.Stands(p - 1);
      c := [iter.item] + c;
      ok := iter.Prev();
      p := p - 1;
    }
  }

  /** One step and the step back: the iterator is where it was, with the same item. */
  method ThereAndBack(iter: Iter, forwards: bool, ghost p: int)
    requires iter.Tied() && iter.Standing(p)
    requires if forwards then p + 1 < |iter.btree.Items()| else 0 < p
    modifies iter
    ensures iter.Standing(p) && iter.item == old(iter.item)
  {
    hide Iter.Tied, Iter.Standing, Iter.CanStep, BTree.Items;
    iter.Stands(p);
    var there, back;
    if forwards {
      there := iter.Next();
      iter.Stands(p + 1);
      back := iter.Prev();
    } else {
      there := iter.Prev();
      iter.Stands(p - 1);
      back := iter.Next();
    }
    iter.Stands(p);
  }

  /** Seek and walk on: exactly the entries not below the key, in order. */
  method CollectFrom(iter: Iter, key: Buffer) returns (c: seq<Entry>)
    requires iter.Tied()
    modifies iter
    ensures c == iter.btree.Items()[Rank(iter.btree.Items(), key)..]
  {
    hide Iter.Tied, Iter.Standing, Iter.CanStep, BTree.Items;
    c := [];
    var ok := iter.Seek(key);
    ghost var p, r := Rank(iter.btree.Items(), key), Rank(iter.btree.Items(), key);
    while ok
      invariant iter.Tied() && r <= p <= |iter.btree.Items()|
      invariant ok == (p < |iter.btree.Items()|) && (ok ==> iter.Standing(p))
      invariant c == iter.btree.Items()[r..p]
      decreases |iter.btree.Items()| - p
    {
      iter.Stands(p);
      c := c + [iter.item];
      ok := iter.Next();
      p := p + 1;
    }
  }
}
