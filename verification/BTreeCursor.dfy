// The explicit stack of a B-tree iterator, read as a position in the ordered contents.

module BTreeCursor {
  import opened Bytes
  import opened Entries
  import opened BTreeValue

  /** struct btree_iter_stack_item: a node (by its value) and an index into it. */
  datatype Level = Level(t: Tree, i: int)

  ghost predicate Wide(t: Tree) {
    t.items != [] && (t.Branch? ==> |t.children| == |t.items| + 1)
  }

  ghost function Top(st: seq<Level>): Level
    requires st != []
  {
    st[|st| - 1]
  }

  ghost function Rest(st: seq<Level>): seq<Level>
    requires st != []
  {
    st[..|st| - 1]
  }

  /** Each node of the stack is the child its predecessor's index names; the first one is the root. */
  ghost predicate Chain(st: seq<Level>, root: Tree)
    decreases |st|
  {
    && st != [] && Wide(Top(st).t)
    && if |st| == 1 then Top(st).t == root
       else && Chain(Rest(st), root)
            && var p := Top(Rest(st));
               p.t.Branch? && 0 <= p.i <= |p.t.items| && Top(st).t == p.t.children[p.i]
  }

  /** Where the contents of the topmost node begin. */
  ghost function Base(st: seq<Level>, root: Tree): nat
    requires Chain(st, root)
    decreases |st|
  {
    if |st| == 1 then 0 else Base(Rest(st), root) + Start(Top(Rest(st)).t, Top(Rest(st)).i)
  }

  /** The position in front of the indexed child, or of the indexed item of a leaf. */
  ghost function Before(st: seq<Level>, root: Tree): nat
    requires Chain(st, root) && 0 <= Top(st).i <= |Top(st).t.items|
  {
    Base(st, root) + Start(Top(st).t, Top(st).i)
  }

  /** The position of the indexed item; behind everything in the node when the index is past its items. */
  ghost function At(st: seq<Level>, root: Tree): int
    requires Chain(st, root) && (Top(st).t.Leaf? ==> -1 <= Top(st).i) && (Top(st).t.Branch? ==> 0 <= Top(st).i)
    requires Top(st).i <= |Top(st).t.items|
  {
    Base(st, root) + if Top(st).i == -1 then -1 else ItemPos(Top(st).t, Top(st).i)
  }

  /** The contents of the topmost node are a stretch of the contents of the tree. */
  lemma {:induction false} Window(st: seq<Level>, root: Tree)
    requires Chain(st, root)
    ensures Base(st, root) + |Flat(Top(st).t)| <= |Flat(root)|
    ensures Flat(Top(st).t) == Flat(root)[Base(st, root)..Base(st, root) + |Flat(Top(st).t)|]
    decreases |st|
  {
    if |st| > 1 {
      var r := Rest(st);
      var p := Top(r);
      Window(r, root);
      Decompose(p.t.items, p.t.children, p.i);
      var b, f := Base(r, root), Flat(p.t);
      var x, c := Start(p.t, p.i), Flat(Top(st).t);
      assert c == f[x..x + |c|];
      SliceOfSlice(Flat(root), b, |f|, x, |c|);
    }
  }

  /** The indexed item is the entry at the stack's position. */
  lemma ItemHere(st: seq<Level>, root: Tree)
    requires Chain(st, root) && 0 <= Top(st).i < |Top(st).t.items|
    ensures 0 <= At(st, root) < |Flat(root)|
    ensures Flat(root)[At(st, root)] == Top(st).t.items[Top(st).i]
  {
    Window(st, root);
    ItemAt(Top(st).t, Top(st).i);
  }

  /** An index past the items stands behind everything in the node. */
  lemma PastItems(t: Tree)
    requires Wide(t)
    ensures ItemPos(t, |t.items|) == |Flat(t)|
  {
  }

  /** Leaving a node that is used up keeps the position. */
  lemma PopUp(st: seq<Level>, root: Tree)
    requires Chain(st, root) && Top(st).i == |Top(st).t.items|
    ensures |st| > 1 ==> 0 <= Top(Rest(st)).i <= |Top(Rest(st)).t.items| && At(Rest(st), root) == At(st, root)
    ensures |st| == 1 ==> At(st, root) == |Flat(root)|
  {
    PastItems(Top(st).t);
  }

  /** Changing the index of the topmost node. */
  lemma Reindex(st: seq<Level>, root: Tree, j: int)
    requires Chain(st, root)
    ensures var st' := Rest(st) + [Level(Top(st).t, j)];
      Chain(st', root) && Base(st', root) == Base(st, root) && Top(st') == Level(Top(st).t, j) && Rest(st') == Rest(st)
  {
    var st' := Rest(st) + [Level(Top(st).t, j)];
    assert Rest(st') == Rest(st);
  }

  /** Stepping the index of a node by one item. */
  lemma StepIndex(t: Tree, i: nat)
    requires Wide(t) && i < |t.items|
    ensures Start(t, i + 1) == ItemPos(t, i) + 1
  {
    ItemAt(t, i);
  }

  /** Node value t may go on top of the stack: the root on an empty one, else the child the topmost index names. */
  ghost predicate CanEnter(st: seq<Level>, t: Tree, root: Tree) {
    && Wide(t)
    && if st == [] then t == root
       else && Chain(st, root)
            && var p := Top(st); p.t.Branch? && 0 <= p.i <= |p.t.items| && t == p.t.children[p.i]
  }

  /** Where the contents of the node to be entered begin. */
  ghost function Gate(st: seq<Level>, t: Tree, root: Tree): nat
    requires CanEnter(st, t, root)
  {
    if st == [] then 0 else Before(st, root)
  }

  lemma Enter(st: seq<Level>, t: Tree, root: Tree, j: int)
    requires CanEnter(st, t, root)
    ensures var st' := st + [Level(t, j)];
      && Chain(st', root) && Base(st', root) == Gate(st, t, root) && Top(st') == Level(t, j) && Rest(st') == st
  {
    assert Rest(st + [Level(t, j)]) == st;
  }

  /** Entering a branch and going on to child j. */
  lemma EnterChild(st: seq<Level>, t: Tree, root: Tree, j: int)
    requires CanEnter(st, t, root) && t.Branch? && 0 <= j <= |t.items| && Wide(t.children[j])
    ensures var st' := st + [Level(t, j)];
      && CanEnter(st', t.children[j], root)
      && Gate(st', t.children[j], root) == Gate(st, t, root) + Start(t, j)
      && (j == |t.items| ==> Gate(st', t.children[j], root) + |Flat(t.children[j])| == Gate(st, t, root) + |Flat(t)|)
  {
    Enter(st, t, root, j);
    PastItems(t);
  }

  /** Entering a leaf. */
  lemma EnterLeaf(st: seq<Level>, t: Tree, root: Tree, j: int)
    requires CanEnter(st, t, root) && t.Leaf? && -1 <= j <= |t.items|
    ensures var st' := st + [Level(t, j)];
      && Chain(st', root) && Top(st') == Level(t, j) && At(st', root) == Gate(st, t, root) + j
  {
    Enter(st, t, root, j);
  }

  /** Behind the indexed item of a branch, and in front of it, lie the neighbouring children. */
  lemma Around(st: seq<Level>, root: Tree)
    requires Chain(st, root) && Top(st).t.Branch? && 0 <= Top(st).i < |Top(st).t.items|
    requires Wide(Top(st).t.children[Top(st).i]) && Wide(Top(st).t.children[Top(st).i + 1])
    ensures var t, i := Top(st).t, Top(st).i; var up := Rest(st) + [Level(t, i + 1)];
      && CanEnter(st, t.children[i], root)
      && Gate(st, t.children[i], root) + |Flat(t.children[i])| == At(st, root)
      && CanEnter(up, t.children[i + 1], root) && Gate(up, t.children[i + 1], root) == At(st, root) + 1
  {
    var t, i := Top(st).t, Top(st).i;
    Reindex(st, root, i + 1);
    StepIndex(t, i);
  }

  /** Leaving a node whose index has fallen below its first item. */
  lemma PopDown(st: seq<Level>, root: Tree)
    requires Chain(st, root) && Top(st).i == -1
    ensures |st| == 1 ==> Base(st, root) == 0
    ensures |st| > 1 ==>
      var u := Rest(st); var t, i := Top(u).t, Top(u).i;
      && 0 <= i <= |t.items|
      && Chain(Rest(u) + [Level(t, i - 1)], root)
      && (i == 0 ==> Base(Rest(u) + [Level(t, -1)], root) == Base(st, root))
      && (i > 0 ==> t.Branch? && At(Rest(u) + [Level(t, i - 1)], root) == Base(st, root) - 1)
  {
    if |st| > 1 {
      var u := Rest(st);
      Reindex(u, root, Top(u).i - 1);
      if Top(u).i > 0 { StepIndex(Top(u).t, Top(u).i - 1); }
    }
  }

  /** The rank of a key inside the topmost node, and inside the child it leads to. */
  lemma SeekDown(t: Tree, k: Buffer)
    requires Wide(t) && t.Branch? && Sorted(Flat(t)) && !Has(t.items, k)
    ensures var i := Rank(t.items, k);
      Sorted(Flat(t.children[i])) && Rank(Flat(t), k) == Start(t, i) + Rank(Flat(t.children[i]), k)
  {
    var i := Rank(t.items, k);
    Bracket(t, k);
    Decompose(t.items, t.children, i);
    RankMiddle(Left(t.items, t.children, i), Flat(t.children[i]), Right(t.items, t.children, i), k);
  }
}
