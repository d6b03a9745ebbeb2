// The bytes of the index: node data, the compressed blocks that hold it, and the image of a whole tree.

module IndexImages {
  import opened Bytes
  import opened Entries
  import opened Files
  import opened EntryFormat
  import opened IndexTrees

  // ---------------------------------------------------------------- node data

  /** The NUL-terminated separators one after the other. */
  function Pool(keys: seq<CString>): Buffer {
    if keys == [] then [] else Pool(keys[..|keys| - 1]) + (keys[|keys| - 1] + [0])
  }

  function EntriesBytes(es: seq<Entry>): Buffer {
    if es == [] then [] else EntriesBytes(es[..|es| - 1]) + EntryBytes(es[|es| - 1])
  }

  /** [node_type:u8] [child_count:u16] [children:u64 x N] [keys] */
  function NodeData(offs: seq<nat>, keys: seq<CString>): Buffer {
    [1] + Le16(|offs|) + (Words(offs) + Pool(keys))
  }

  /** [node_type:u8] [entry_count:u16] [entries] */
  function LeafData(es: seq<Entry>): Buffer {
    [2] + Le16(|es|) + EntriesBytes(es)
  }

  function Offs(ts: seq<ITree>): (o: seq<nat>)
    ensures |o| == |ts| && forall i :: 0 <= i < |ts| ==> o[i] == ts[i].off
  {
    seq(|ts|, i requires 0 <= i < |ts| => ts[i].off)
  }

  function DataOf(t: ITree): Buffer {
    match t
    case ILeaf(_, es) => LeafData(es)
    case INode(_, keys, children) => NodeData(Offs(children), keys)
  }

  // ---------------------------------------------------------------- the image of a tree

  /** The number of bytes a tree takes in the file. */
  ghost function Size(c: Codec, t: ITree): nat
    decreases t
  {
    match t
    case ILeaf(_, _) => |Block(c, DataOf(t))| + 8
    case INode(_, _, children) => SizeTo(c, children, |children|) + |Block(c, DataOf(t))|
  }

  ghost function SizeTo(c: Codec, ts: seq<ITree>, i: nat): nat
    requires i <= |ts|
    decreases ts, i
  {
    if i == 0 then 0 else SizeTo(c, ts, i - 1) + Size(c, ts[i - 1])
  }

  /** The offset of the first leaf. */
  ghost function First(t: ITree): nat
    decreases t
  {
    match t
    case ILeaf(off, _) => off
    case INode(off, _, children) => if children == [] then off else First(children[0])
  }

  /** What the file holds for a tree whose last leaf links to `next`: every leaf is followed by the offset of
      the next one, and a node comes after its children. */
  ghost function Image(c: Codec, t: ITree, next: nat): Buffer
    decreases t
  {
    match t
    case ILeaf(_, _) => Block(c, DataOf(t)) + Le64(next)
    case INode(_, _, children) => ImageTo(c, children, |children|, next) + Block(c, DataOf(t))
  }

  ghost function ImageTo(c: Codec, ts: seq<ITree>, i: nat, next: nat): Buffer
    requires i <= |ts|
    decreases ts, i
  {
    if i == 0 then [] else ImageTo(c, ts, i - 1, First(ts[i - 1])) + Image(c, ts[i - 1], next)
  }

  /** The place of the last leaf's link inside the image. */
  ghost function Link(c: Codec, t: ITree): nat
    decreases t
  {
    match t
    case ILeaf(_, _) => |Block(c, DataOf(t))|
    case INode(_, _, children) =>
      if children == [] then 0 else SizeTo(c, children, |children| - 1) + Link(c, children[|children| - 1])
  }

  lemma {:induction false} ImageSize(c: Codec, t: ITree, next: nat)
    ensures |Image(c, t, next)| == Size(c, t)
    decreases t, 1
  {
    if t.INode? { ImageToSize(c, t.children, |t.children|, next); }
  }

  lemma {:induction false} ImageToSize(c: Codec, ts: seq<ITree>, i: nat, next: nat)
    requires i <= |ts|
    ensures |ImageTo(c, ts, i, next)| == SizeTo(c, ts, i)
    decreases ts, 0, i
  {
    if i > 0 {
      ImageToSize(c, ts, i - 1, First(ts[i - 1]));
      ImageSize(c, ts[i - 1], next);
    }
  }

  /** A child and everything before it take no more than all children up to a later one. */
  lemma {:induction false} SizeToStep(c: Codec, ts: seq<ITree>, i: nat, j: nat)
    requires i < j <= |ts|
    ensures SizeTo(c, ts, i) + Size(c, ts[i]) <= SizeTo(c, ts, j)
    decreases j
  {
    hide Size;
    if i < j - 1 { SizeToStep(c, ts, i, j - 1); }
  }

  // ---------------------------------------------------------------- back-patching

  /** Overwriting inside the right-hand part. */
  lemma WrittenRight(a: Buffer, b: Buffer, p: nat, d: Buffer)
    requires p + |d| <= |b|
    ensures Written(a + b, |a| + p, d) == a + Written(b, p, d)
  {
  }

  /** Overwriting inside the left-hand part. */
  lemma WrittenLeft(a: Buffer, b: Buffer, p: nat, d: Buffer)
    requires p + |d| <= |a|
    ensures Written(a + b, p, d) == Written(a, p, d) + b
  {
  }

  /** No node of the tree is without children. */
  ghost predicate Proper(t: ITree)
    decreases t
  {
    t.INode? ==> t.children != [] && forall i :: 0 <= i < |t.children| ==> Proper(t.children[i])
  }

  /** A back-patch of the last link changes where the last leaf links to, and not a byte besides. */
  lemma {:induction false} Relink(c: Codec, t: ITree, a: nat, b: nat)
    requires Proper(t)
    ensures Link(c, t) + 8 <= |Image(c, t, a)|
    ensures Written(Image(c, t, a), Link(c, t), Le64(b)) == Image(c, t, b)
    decreases t
  {
    hide Block, DataOf, Le64;
    if t.ILeaf? {
      RelinkLeaf(Block(c, DataOf(t)), Le64(a), Le64(b));
    } else {
      hide Image, Link, SizeTo, ImageTo, Written;
      var n := |t.children|;
      var l, k := t.children[n - 1], Block(c, DataOf(t));
      var u := ImageTo(c, t.children, n - 1, First(l));
      Relink(c, l, a, b);
      ImageToSize(c, t.children, n - 1, First(l));
      ImageNode(c, t, a);
      ImageNode(c, t, b);
      WrittenRight(u, Image(c, l, a), Link(c, l), Le64(b));
      WrittenLeft(u + Image(c, l, a), k, |u| + Link(c, l), Le64(b));
    }
  }

  lemma RelinkLeaf(k: Buffer, a: Buffer, b: Buffer)
    requires |a| == |b|
    ensures Written(k + a, |k|, b) == k + b
  {
  }

  /** A node's image: its children's, the last of them linked onwards, and its own block. */
  lemma ImageNode(c: Codec, t: ITree, next: nat)
    requires t.INode? && t.children != []
    ensures var n := |t.children|; var l := t.children[n - 1];
      && Image(c, t, next) == ImageTo(c, t.children, n - 1, First(l)) + Image(c, l, next) + Block(c, DataOf(t))
      && Link(c, t) == SizeTo(c, t.children, n - 1) + Link(c, l)
  {
  }

  /** The same for a row of trees. */
  lemma RelinkTo(c: Codec, ts: seq<ITree>, i: nat, a: nat, b: nat)
    requires 0 < i <= |ts| && Proper(ts[i - 1])
    ensures var p := SizeTo(c, ts, i - 1) + Link(c, ts[i - 1]);
      && p + 8 <= |ImageTo(c, ts, i, a)|
      && Written(ImageTo(c, ts, i, a), p, Le64(b)) == ImageTo(c, ts, i, b)
  {
    hide Image, Link, Written;
    var l := ts[i - 1];
    var u := ImageTo(c, ts, i - 1, First(l));
    Relink(c, l, a, b);
    ImageToSize(c, ts, i - 1, First(l));
    WrittenRight(u, Image(c, l, a), Link(c, l), Le64(b));
  }

  // ---------------------------------------------------------------- the tree the writer lays out

  /** The tree over the entries, with the offsets it gets when its image begins at lo. */
  ghost function Plan(c: Codec, es: seq<Entry>, m: nat, lo: nat): ITree
    requires 1 <= m
    decreases |es|, m + 2
  {
    if |es| <= m then ILeaf(lo, es)
    else
      var children := PlanTo(c, es, m, lo, m + 1);
      INode(lo + SizeTo(c, children, m + 1), seq(m, x requires 0 <= x < m => LastKey(Part(es, m, x))), children)
  }

  ghost function PlanTo(c: Codec, es: seq<Entry>, m: nat, lo: nat, i: nat): (ts: seq<ITree>)
    requires 1 <= m < |es| && i <= m + 1
    ensures |ts| == i
    decreases |es|, i
  {
    if i == 0 then []
    else
      var before := PlanTo(c, es, m, lo, i - 1);
      before + [Plan(c, Part(es, m, i - 1), m, lo + SizeTo(c, before, i - 1))]
  }

  lemma {:induction false} SizeToSame(c: Codec, ts: seq<ITree>, us: seq<ITree>, i: nat)
    requires i <= |ts| && i <= |us| && ts[..i] == us[..i]
    ensures SizeTo(c, ts, i) == SizeTo(c, us, i)
  {
    hide Size;
    if i > 0 {
      assert ts[..i - 1] == ts[..i][..i - 1] && us[..i - 1] == us[..i][..i - 1];
      assert ts[i - 1] == ts[..i][i - 1] && us[i - 1] == us[..i][i - 1];
      SizeToSame(c, ts, us, i - 1);
    }
  }

  lemma {:induction false} ImageToSame(c: Codec, ts: seq<ITree>, us: seq<ITree>, i: nat, next: nat)
    requires i <= |ts| && i <= |us| && ts[..i] == us[..i]
    ensures ImageTo(c, ts, i, next) == ImageTo(c, us, i, next)
    decreases i
  {
    hide Image, First;
    if i > 0 {
      assert ts[..i - 1] == ts[..i][..i - 1] && us[..i - 1] == us[..i][..i - 1];
      assert ts[i - 1] == ts[..i][i - 1] && us[i - 1] == us[..i][i - 1];
      ImageToSame(c, ts, us, i - 1, First(ts[i - 1]));
    }
  }

  lemma {:induction false} PlanPrefix(c: Codec, es: seq<Entry>, m: nat, lo: nat, i: nat, j: nat)
    requires 1 <= m < |es| && i <= j <= m + 1
    ensures PlanTo(c, es, m, lo, j)[..i] == PlanTo(c, es, m, lo, i)
    decreases j
  {
    if i < j {
      PlanPrefix(c, es, m, lo, i, j - 1);
      var ts := PlanTo(c, es, m, lo, j);
      assert ts[..i] == ts[..j - 1][..i];
    }
  }

  lemma PlanNode(c: Codec, es: seq<Entry>, m: nat, lo: nat)
    requires 1 <= m < |es|
    ensures var t, ts := Plan(c, es, m, lo), PlanTo(c, es, m, lo, m + 1);
      && t.INode? && t.children == ts && t.off == lo + SizeTo(c, ts, m + 1) && |t.keys| == m
      && forall i :: 0 <= i < m ==> t.keys[i] == LastKey(Part(es, m, i))
  {
    hide SizeTo, Part, PlanTo;
  }

  /** Child i of the plan. */
  lemma PlanChild(c: Codec, es: seq<Entry>, m: nat, lo: nat, i: nat)
    requires 1 <= m < |es| && i <= m
    ensures var t := Plan(c, es, m, lo);
      && t.INode? && |t.children| == m + 1 && |t.keys| == m && t.children == PlanTo(c, es, m, lo, m + 1)
      && t.children[i] == Plan(c, Part(es, m, i), m, lo + SizeTo(c, t.children, i))
      && t.off == lo + SizeTo(c, t.children, m + 1)
      && (i < m ==> t.keys[i] == LastKey(Part(es, m, i)))
  {
    hide SizeTo, Part;
    var ts, before := PlanTo(c, es, m, lo, m + 1), PlanTo(c, es, m, lo, i);
    PlanNode(c, es, m, lo);
    hide Plan;
    PlanPrefix(c, es, m, lo, i + 1, m + 1);
    PlanPrefix(c, es, m, lo, i, m + 1);
    assert ts[i] == ts[..i + 1][i];
    SizeToSame(c, ts, before, i);
  }

  lemma {:induction false} PlanBuilt(c: Codec, es: seq<Entry>, m: nat, lo: nat)
    requires 1 <= m
    ensures Built(Plan(c, es, m, lo), es, m) && Proper(Plan(c, es, m, lo))
    decreases |es|
  {
    hide Part, SizeTo, PlanTo;
    var t := Plan(c, es, m, lo);
    if |es| > m {
      PlanChild(c, es, m, lo, 0);
      hide Plan;
      forall i | 0 <= i <= m
        ensures Built(t.children[i], Part(es, m, i), m) && Proper(t.children[i])
      {
        PlanChild(c, es, m, lo, i);
        PlanBuilt(c, Part(es, m, i), m, lo + SizeTo(c, t.children, i));
      }
      forall i | 0 <= i < m ensures t.keys[i] == LastKey(Part(es, m, i)) {
        PlanChild(c, es, m, lo, i);
      }
    }
  }

  // ---------------------------------------------------------------- limits

  /** Everything the writer checks on the way: counts and sizes that fit their fields. */
  ghost predicate Fits(c: Codec, t: ITree)
    decreases t
  {
    && Sized(c, DataOf(t))
    && match t
       case ILeaf(_, es) => |es| < U16_LIMIT && forall i :: 0 <= i < |es| ==> Countable(es[i])
       case INode(_, _, children) =>
         |children| < U16_LIMIT && forall i :: 0 <= i < |children| ==> Fits(c, children[i])
  }

  /** A tree fits if and only if each of its nodes does: sizes below 4 GiB and counts of at most 65535. */
  lemma FitsIff(c: Codec, t: ITree)
    ensures Fits(c, t) <==> forall path, u :: Leads(t, path, u) ==>
      && |DataOf(u)| < 0x1_0000_0000 && |c.compress(DataOf(u))| < 0x1_0000_0000
      && (u.INode? ==> |u.children| <= 65535)
      && (u.ILeaf? ==> |u.entries| <= 65535 && forall i :: 0 <= i < |u.entries| ==> |u.entries[i].items| <= 65535)
  {
    hide DataOf, Leads, Fits;
    if Fits(c, t) {
      forall path, u | Leads(t, path, u)
        ensures |DataOf(u)| < 0x1_0000_0000 && |c.compress(DataOf(u))| < 0x1_0000_0000
        ensures u.INode? ==> |u.children| <= 65535
        ensures u.ILeaf? ==>
          |u.entries| <= 65535 && forall i :: 0 <= i < |u.entries| ==> |u.entries[i].items| <= 65535
      {
        FitsDown(c, t, path, u);
      }
    } else {
      var path, u := Misfit(c, t);
    }
  }

  lemma {:induction false} FitsDown(c: Codec, t: ITree, path: seq<nat>, u: ITree)
    requires Fits(c, t) && Leads(t, path, u)
    ensures |DataOf(u)| < 0x1_0000_0000 && |c.compress(DataOf(u))| < 0x1_0000_0000
    ensures u.INode? ==> |u.children| <= 65535
    ensures u.ILeaf? ==> |u.entries| <= 65535 && forall i :: 0 <= i < |u.entries| ==> |u.entries[i].items| <= 65535
    decreases |path|
  {
    hide DataOf;
    if path != [] {
      FitsDown(c, t.children[path[0]], path[1..], u);
    } else if u.ILeaf? {
      assert forall i :: 0 <= i < |u.entries| ==> Countable(u.entries[i]);
    }
  }

  /** A tree that does not fit has a node that does not. */
  lemma {:induction false} Misfit(c: Codec, t: ITree) returns (path: seq<nat>, u: ITree)
    requires !Fits(c, t)
    ensures Leads(t, path, u)
    ensures |DataOf(u)| >= 0x1_0000_0000 || |c.compress(DataOf(u))| >= 0x1_0000_0000
            || (u.INode? && |u.children| > 65535)
            || (u.ILeaf? && (|u.entries| > 65535 || exists i :: 0 <= i < |u.entries| && |u.entries[i].items| > 65535))
    decreases t
  {
    hide DataOf;
    if t.INode? && Sized(c, DataOf(t)) && |t.children| < U16_LIMIT {
      var i :| 0 <= i < |t.children| && !Fits(c, t.children[i]);
      path, u := Misfit(c, t.children[i]);
      assert ([i] + path)[1..] == path;
      path := [i] + path;
    } else {
      path, u := [], t;
    }
  }
}
