// What a file holds once the index is written: every node at its offset, every leaf linked to the next.

module IndexStores {
  import opened Bytes
  import opened Entries
  import opened Files
  import opened EntryFormat
  import opened IndexTrees
  import opened IndexLookups
  import opened IndexImages
  import opened NodeSearches

  /** UDX_INDEX_NODE_MAX_SIZE: larger nodes are written but not read. */
  const NODE_MAX_SIZE: int := 1048576

  /** Node t lies in the file at its offset, a leaf followed by its link; and so do all nodes below. */
  ghost predicate Stored(c: Codec, b: Buffer, t: ITree, next: nat)
    decreases t
  {
    match t
    case ILeaf(off, _) => At(b, off, Block(c, DataOf(t)) + Le64(next))
    case INode(off, _, children) =>
      && At(b, off, Block(c, DataOf(t)))
      && forall i :: 0 <= i < |children| ==> Stored(c, b, children[i], Onward(children, i, next))
  }

  /** Where the last leaf below child i links to. */
  ghost function Onward(children: seq<ITree>, i: nat, next: nat): nat
    requires i < |children|
  {
    if i + 1 < |children| then First(children[i + 1]) else next
  }

  /** Every node is at an offset that the reader can seek to. */
  ghost predicate Placed(t: ITree)
    decreases t
  {
    0 < t.off < OFFSET_LIMIT && (t.INode? ==> forall i :: 0 <= i < |t.children| ==> Placed(t.children[i]))
  }

  /** Node t is within the size the reader accepts. */
  ghost predicate Legible(c: Codec, t: ITree) {
    |DataOf(t)| <= NODE_MAX_SIZE && |c.compress(DataOf(t))| <= NODE_MAX_SIZE
  }

  /** The limit is 1 MiB, for the data and for what they compress to. */
  lemma LegibleIs(c: Codec, t: ITree)
    ensures Legible(c, t) <==> |DataOf(t)| <= 1048576 && |c.compress(DataOf(t))| <= 1048576
  {
  }

  /** Every node below the root on the descent of k is within the size the reader accepts. */
  ghost predicate WayLegible(c: Codec, t: ITree, k: Buffer)
    decreases t
  {
    t.INode? ==>
      && |t.children| == |t.keys| + 1
      && var u := t.children[Passed(t.keys, k, false)]; Legible(c, u) && WayLegible(c, u, k)
  }

  /** The nodes of a descent from t downwards, each the child behind all separators that k has passed. */
  ghost predicate Descent(us: seq<ITree>, t: ITree, k: Buffer) {
    && us != [] && us[0] == t
    && forall i :: 0 <= i < |us| - 1 ==>
         && us[i].INode? && |us[i].children| == |us[i].keys| + 1
         && us[i + 1] == us[i].children[Passed(us[i].keys, k, false)]
  }

  /** The way to a key is legible if and only if every node that a descent reaches below the root is. */
  lemma WayLegibleIff(c: Codec, t: ITree, es: seq<Entry>, m: nat, k: Buffer)
    requires Built(t, es, m)
    ensures WayLegible(c, t, k) <==>
      forall us: seq<ITree> :: Descent(us, t, k) && |us| > 1 ==> Legible(c, us[|us| - 1])
  {
    hide Built, Legible;
    if WayLegible(c, t, k) {
      forall us: seq<ITree> | Descent(us, t, k) && |us| > 1 ensures Legible(c, us[|us| - 1]) {
        DescentLegible(c, us, t, k);
      }
    } else {
      var us := DarkDescent(c, t, es, m, k);
    }
  }

  lemma {:induction false} DescentLegible(c: Codec, us: seq<ITree>, t: ITree, k: Buffer)
    requires WayLegible(c, t, k) && Descent(us, t, k) && |us| > 1
    ensures Legible(c, us[|us| - 1])
    decreases |us|
  {
    hide Legible, Passed;
    if |us| > 2 { DescentLegible(c, us[1..], us[1], k); }
  }

  lemma {:induction false} DarkDescent(c: Codec, t: ITree, es: seq<Entry>, m: nat, k: Buffer) returns (us: seq<ITree>)
    requires Built(t, es, m) && !WayLegible(c, t, k)
    ensures Descent(us, t, k) && |us| > 1 && !Legible(c, us[|us| - 1])
    decreases t
  {
    hide Legible, Built, Passed, Cut, Near;
    BuiltKind(t, es, m);
    var i := Passed(t.keys, k, false);
    if !Legible(c, t.children[i]) {
      us := [t, t.children[i]];
    } else {
      BuiltChild(t, es, m, i);
      us := DarkDescent(c, t.children[i], Part(es, m, i), m, k);
      us := [t] + us;
    }
  }

  /** The first leaf from i on that the reader does not accept, or the number of leaves. */
  ghost function FirstDark(c: Codec, ls: seq<ITree>, i: nat): (r: nat)
    requires i <= |ls|
    ensures i <= r <= |ls|
    ensures forall j :: i <= j < r ==> Legible(c, ls[j])
    ensures r < |ls| ==> !Legible(c, ls[r])
    decreases |ls| - i
  {
    if i == |ls| || !Legible(c, ls[i]) then i else FirstDark(c, ls, i + 1)
  }

  /** Child offsets are smaller than their parent's, all the way down. */
  ghost predicate Downhill(t: ITree)
    decreases t
  {
    t.INode? ==> forall i :: 0 <= i < |t.children| ==> t.children[i].off < t.off && Downhill(t.children[i])
  }

  // ---------------------------------------------------------------- from the image to the nodes

  /** The images of a row of trees, one behind the other. */
  lemma {:induction false} RowAt(c: Codec, b: Buffer, lo: nat, ts: seq<ITree>, i: nat, next: nat, j: nat)
    requires j < i <= |ts| && At(b, lo, ImageTo(c, ts, i, next))
    ensures At(b, lo + SizeTo(c, ts, j), Image(c, ts[j], if j + 1 < i then First(ts[j + 1]) else next))
    decreases i
  {
    hide At, Image, Size;
    var u := ImageTo(c, ts, i - 1, First(ts[i - 1]));
    AtParts(b, lo, u, Image(c, ts[i - 1], next));
    ImageToSize(c, ts, i - 1, First(ts[i - 1]));
    if j < i - 1 { RowAt(c, b, lo, ts, i - 1, First(ts[i - 1]), j); }
  }

  /** The image of a planned tree stores the tree. */
  lemma {:induction false} ImageStored(c: Codec, b: Buffer, es: seq<Entry>, m: nat, lo: nat, next: nat)
    requires 1 <= m && At(b, lo, Image(c, Plan(c, es, m, lo), next))
    ensures Stored(c, b, Plan(c, es, m, lo), next)
    decreases |es|
  {
    hide Block, DataOf, At, Le64, PlanTo, Part, Size;
    var t := Plan(c, es, m, lo);
    if |es| > m {
      PlanChild(c, es, m, lo, 0);
      hide Plan, SizeTo;
      ImageToSize(c, t.children, m + 1, next);
      AtParts(b, lo, ImageTo(c, t.children, m + 1, next), Block(c, DataOf(t)));
      forall i | 0 <= i <= m ensures Stored(c, b, t.children[i], Onward(t.children, i, next)) {
        PlanChild(c, es, m, lo, i);
        RowAt(c, b, lo, t.children, m + 1, next, i);
        ImageStored(c, b, Part(es, m, i), m, lo + SizeTo(c, t.children, i), Onward(t.children, i, next));
      }
    }
  }

  // ---------------------------------------------------------------- offsets

  /** A planned tree lies inside its stretch of the file, its root behind everything below it. */
  lemma {:induction false} PlanDownhill(c: Codec, es: seq<Entry>, m: nat, lo: nat)
    requires 1 <= m
    ensures var t := Plan(c, es, m, lo); lo <= t.off < lo + Size(c, t) && Downhill(t)
    decreases |es|
  {
    hide Block, DataOf, PlanTo, Part;
    var t := Plan(c, es, m, lo);
    BlockNotEmpty(c, DataOf(t));
    if |es| > m {
      PlanChild(c, es, m, lo, 0);
      hide Plan, SizeTo;
      forall i | 0 <= i <= m ensures t.children[i].off < t.off && Downhill(t.children[i]) {
        PlanChild(c, es, m, lo, i);
        PlanDownhill(c, Part(es, m, i), m, lo + SizeTo(c, t.children, i));
        SizeToStep(c, t.children, i, m + 1);
      }
    }
  }

  lemma BlockNotEmpty(c: Codec, data: Buffer)
    ensures |Block(c, data)| >= 8
  {
  }

  /** Leaf offsets rise from left to right, inside the tree's stretch of the file. */
  ghost predicate Rising(ls: seq<ITree>, lo: nat, hi: nat) {
    && (forall j :: 0 <= j < |ls| ==> lo <= ls[j].off < hi)
    && forall i, j :: 0 <= i < j < |ls| ==> ls[i].off < ls[j].off
  }

  lemma RisingAppend(a: seq<ITree>, b: seq<ITree>, lo: nat, mid: nat, hi: nat)
    requires Rising(a, lo, mid) && Rising(b, mid, hi) && lo <= mid <= hi
    ensures Rising(a + b, lo, hi)
  {
  }

  lemma {:induction false} LeavesRise(c: Codec, es: seq<Entry>, m: nat, lo: nat)
    requires 1 <= m
    ensures var t := Plan(c, es, m, lo); Rising(Leaves(t), lo, lo + Size(c, t))
    decreases |es|, 1
  {
    hide Block, DataOf, PlanTo, Part;
    if |es| <= m {
      assert Leaves(Plan(c, es, m, lo)) == [Plan(c, es, m, lo)];
      BlockNotEmpty(c, DataOf(Plan(c, es, m, lo)));
    } else {
      PlanChild(c, es, m, lo, 0);
      hide Plan, SizeTo, Rising;
      LeavesToRise(c, es, m, lo, m + 1);
      var t := Plan(c, es, m, lo);
      RisingWider(Leaves(t), lo, lo + SizeTo(c, t.children, m + 1), lo + Size(c, t));
    }
  }

  lemma RisingWider(ls: seq<ITree>, lo: nat, hi: nat, hi': nat)
    requires Rising(ls, lo, hi) && hi <= hi'
    ensures Rising(ls, lo, hi')
  {
  }

  lemma {:induction false} LeavesToRise(c: Codec, es: seq<Entry>, m: nat, lo: nat, i: nat)
    requires 1 <= m < |es| && i <= m + 1
    ensures var ts := Plan(c, es, m, lo).children; |ts| == m + 1 && Rising(LeavesTo(ts, i), lo, lo + SizeTo(c, ts, i))
    decreases |es|, 0, i
  {
    hide Block, DataOf, PlanTo, Part, Plan, Size, Leaves;
    PlanChild(c, es, m, lo, 0);
    if i > 0 {
      var ts := Plan(c, es, m, lo).children;
      PlanChild(c, es, m, lo, i - 1);
      LeavesToRise(c, es, m, lo, i - 1);
      LeavesRise(c, Part(es, m, i - 1), m, lo + SizeTo(c, ts, i - 1));
      RisingAppend(LeavesTo(ts, i - 1), Leaves(ts[i - 1]), lo, lo + SizeTo(c, ts, i - 1), lo + SizeTo(c, ts, i));
    }
  }

  // ---------------------------------------------------------------- what the reader relies on

  /** The file holds the tree over es as the writer lays it out. */
  ghost predicate Held(c: Codec, b: Buffer, t: ITree, es: seq<Entry>, m: nat, next: nat) {
    Built(t, es, m) && es != [] && Sorted(es) && Fits(c, t) && Placed(t) && Stored(c, b, t, next)
  }

  lemma PartSorted(es: seq<Entry>, m: nat, i: nat)
    requires 1 <= m < |es| && i <= m && Sorted(es)
    ensures Sorted(Part(es, m, i)) && Part(es, m, i) != []
  {
    hide Near, Cut, Less;
    PartAt(es, m, i);
  }

  /** A child of a node that is held is held. */
  lemma HeldChild(c: Codec, b: Buffer, t: ITree, es: seq<Entry>, m: nat, next: nat, i: nat)
    requires Held(c, b, t, es, m, next) && t.INode? && i <= m
    ensures 1 <= m < |es| && |t.children| == m + 1 && |t.keys| == m
    ensures Held(c, b, t.children[i], Part(es, m, i), m, Onward(t.children, i, next))
  {
    hide Sorted, DataOf, Block, Cut, Near, Onward;
    BuiltChild(t, es, m, i);
    PartSorted(es, m, i);
  }

  /** The separators of a node rise. */
  lemma KeysRise(t: ITree, es: seq<Entry>, m: nat, i: nat, j: nat)
    requires Built(t, es, m) && Sorted(es) && t.INode? && i < j < m
    ensures |t.keys| == m && Less(t.keys[i], t.keys[j])
  {
    hide Built, Cut, Near, Less;
    BuiltKind(t, es, m);
    BuiltChild(t, es, m, i);
    BuiltChild(t, es, m, j);
    PartAt(es, m, i);
    PartAt(es, m, j);
    CutMonotone(|es|, m, i + 1, j);
    assert LastKey(Part(es, m, i)) == es[Cut(|es|, m, i + 1) - 1].key;
    assert LastKey(Part(es, m, j)) == es[Cut(|es|, m, j + 1) - 1].key;
  }

  /** The data of a held internal node is laid out as the search expects. */
  lemma HeldNode(c: Codec, b: Buffer, t: ITree, es: seq<Entry>, m: nat, next: nat)
    requires Held(c, b, t, es, m, next) && t.INode?
    ensures NodeShape(DataOf(t), Offs(t.children), t.keys) && |t.keys| == m && |t.children| == m + 1
  {
    hide Built, Stored, Less, Sorted, NodeData;
    BuiltKind(t, es, m);
    forall i, j | 0 <= i < j < |t.keys| ensures Less(t.keys[i], t.keys[j]) { KeysRise(t, es, m, i, j); }
    forall i | 0 <= i < |t.children| ensures t.children[i].off < U64_LIMIT {
      assert Placed(t.children[i]);
    }
  }

  /** Leaf l lies in the file with a link to `next` behind it. */
  ghost predicate LeafHeld(c: Codec, b: Buffer, l: ITree, next: nat) {
    && l.ILeaf? && At(b, l.off, Block(c, DataOf(l)) + Le64(next)) && Sized(c, DataOf(l))
    && LeafShape(DataOf(l), l.entries) && 0 < l.off < OFFSET_LIMIT
  }

  /** Where leaf j of ls links to, the last one to `next`. */
  ghost function NextOff(ls: seq<ITree>, j: nat, next: nat): nat
    requires j < |ls|
  {
    if j + 1 < |ls| then ls[j + 1].off else next
  }

  lemma {:induction false} FirstIsLeaf(t: ITree, es: seq<Entry>, m: nat)
    requires Built(t, es, m)
    ensures Leaves(t) != [] && Leaves(t)[0].off == First(t)
    decreases t
  {
    hide Part;
    if t.INode? {
      FirstIsLeaf(t.children[0], Part(es, m, 0), m);
      LeavesToFirst(t.children, |t.children|);
    }
  }

  lemma {:induction false} LeavesToFirst(children: seq<ITree>, i: nat)
    requires 0 < i <= |children| && Leaves(children[0]) != []
    ensures LeavesTo(children, i) != [] && LeavesTo(children, i)[0] == Leaves(children[0])[0]
  {
    if i > 1 {
      LeavesToFirst(children, i - 1);
    } else {
      assert LeavesTo(children, 1) == LeavesTo(children, 0) + Leaves(children[0]);
    }
  }

  /** Every leaf of the list is in the file and links to the one on its right. */
  ghost predicate LeavesLinked(c: Codec, b: Buffer, ls: seq<ITree>, next: nat) {
    forall j :: 0 <= j < |ls| ==> LeafHeld(c, b, ls[j], NextOff(ls, j, next))
  }

  lemma LinkedAppend(c: Codec, b: Buffer, x: seq<ITree>, y: seq<ITree>, next: nat)
    requires y != [] && LeavesLinked(c, b, x, y[0].off) && LeavesLinked(c, b, y, next)
    ensures LeavesLinked(c, b, x + y, next)
  {
    hide LeafHeld;
    var ls := x + y;
    forall j | 0 <= j < |ls| ensures LeafHeld(c, b, ls[j], NextOff(ls, j, next)) {
      if j < |x| {
        assert LeafHeld(c, b, x[j], NextOff(x, j, y[0].off));
      } else {
        assert LeafHeld(c, b, y[j - |x|], NextOff(y, j - |x|, next));
      }
    }
  }

  /** The leaf chain of a held tree runs through all leaves from left to right. */
  lemma {:induction false} HeldLinked(c: Codec, b: Buffer, t: ITree, es: seq<Entry>, m: nat, next: nat)
    requires Held(c, b, t, es, m, next)
    ensures LeavesLinked(c, b, Leaves(t), next)
    decreases t, 1
  {
    hide Held, LeafHeld;
    if t.ILeaf? {
      HeldLeaf(c, b, t, es, m, next);
    } else {
      HeldChild(c, b, t, es, m, next, m);
      HeldToLinked(c, b, t, es, m, next, m + 1);
    }
  }

  lemma {:induction false} HeldToLinked(c: Codec, b: Buffer, t: ITree, es: seq<Entry>, m: nat, next: nat, i: nat)
    requires Held(c, b, t, es, m, next) && t.INode? && 0 < i <= m + 1 == |t.children|
    ensures LeavesLinked(c, b, LeavesTo(t.children, i), Onward(t.children, i - 1, next))
    decreases t, 0, i
  {
    hide Held, LeafHeld, Leaves, LeavesLinked;
    HeldChild(c, b, t, es, m, next, i - 1);
    var u, part, onward := t.children[i - 1], Part(es, m, i - 1), Onward(t.children, i - 1, next);
    HeldLinked(c, b, u, part, m, onward);
    HeldFirst(c, b, u, part, m, onward);
    if i > 1 {
      HeldToLinked(c, b, t, es, m, next, i - 1);
      LinkedAppend(c, b, LeavesTo(t.children, i - 1), Leaves(u), onward);
    } else {
      LeavesStep(t.children, 0);
      assert LeavesTo(t.children, i) == Leaves(u);
    }
  }

  lemma HeldLeaf(c: Codec, b: Buffer, t: ITree, es: seq<Entry>, m: nat, next: nat)
    requires Held(c, b, t, es, m, next) && t.ILeaf?
    ensures Leaves(t) == [t] && LeafHeld(c, b, t, next)
  {
    hide Block, Less, LeafData, Sorted;
    BuiltKind(t, es, m);
  }

  lemma HeldFirst(c: Codec, b: Buffer, t: ITree, es: seq<Entry>, m: nat, next: nat)
    requires Held(c, b, t, es, m, next)
    ensures Leaves(t) != [] && Leaves(t)[0].off == First(t)
  {
    FirstIsLeaf(t, es, m);
  }

  // ---------------------------------------------------------------- the written index

  /** All nodes of a planned tree lie within the file. */
  lemma {:induction false} PlanPlaced(c: Codec, es: seq<Entry>, m: nat, lo: nat)
    requires 1 <= m && 0 < lo && lo + Size(c, Plan(c, es, m, lo)) < OFFSET_LIMIT
    ensures Placed(Plan(c, es, m, lo))
    decreases |es|
  {
    hide DataOf, PlanTo, Part, Block;
    var t := Plan(c, es, m, lo);
    PlanDownhill(c, es, m, lo);
    if |es| > m {
      PlanChild(c, es, m, lo, 0);
      hide Plan, SizeTo;
      forall i | 0 <= i <= m ensures Placed(t.children[i]) {
        PlanChild(c, es, m, lo, i);
        SizeToStep(c, t.children, i, m + 1);
        PlanPlaced(c, Part(es, m, i), m, lo + SizeTo(c, t.children, i));
      }
    }
  }

  /** What the writer leaves behind is what the reader relies on, whatever is appended to the file later. */
  lemma WrittenIsHeld(c: Codec, before: Buffer, after: Buffer, es: seq<Entry>, m: nat)
    requires 1 <= m && es != [] && Sorted(es) && before != []
    requires var t := Plan(c, es, m, |before|);
      Fits(c, t) && |before| + Size(c, t) < OFFSET_LIMIT
    ensures var t := Plan(c, es, m, |before|); Held(c, before + Image(c, t, 0) + after, t, es, m, 0)
  {
    hide Plan, Image, Size, Sorted, Fits, Placed, Stored;
    var lo := |before|;
    var t := Plan(c, es, m, lo);
    PlanBuilt(c, es, m, lo);
    PlanPlaced(c, es, m, lo);
    var b := before + Image(c, t, 0) + after;
    assert b[lo..lo + |Image(c, t, 0)|] == Image(c, t, 0);
    ImageStored(c, b, es, m, lo, 0);
  }
}
