// The value of a B-tree node and what the node algorithms do to that value.
//
// A node of the real tree is an object that may be shared between several trees
// (see BTree.dfy). Its value is a finite tree; the functions below are the
// specification that the in-place methods refine, and the lemmas say what they
// mean for the ordered list of entries that a tree stands for.

module BTreeValue {
  import opened Bytes
  import opened Entries

  datatype Tree =
    | Leaf(items: seq<Entry>)
    | Branch(items: seq<Entry>, children: seq<Tree>)

  // ---------------------------------------------------------------- in-order contents

  ghost function Flat(t: Tree): seq<Entry>
    decreases t
  {
    match t
    case Leaf(items) => items
    case Branch(items, children) =>
      if |children| <= |items| then [] else Left(items, children, |items|) + Flat(children[|items|])
  }

  /** Everything before child i. */
  ghost function Left(items: seq<Entry>, children: seq<Tree>, i: nat): seq<Entry>
    requires i <= |items| && i <= |children|
    decreases children, i
  {
    if i == 0 then [] else Left(items, children, i - 1) + Flat(children[i - 1]) + [items[i - 1]]
  }

  /** Everything after child i. */
  ghost function Right(items: seq<Entry>, children: seq<Tree>, i: nat): seq<Entry>
    requires i <= |items| < |children|
    decreases children, |items| - i
  {
    if i == |items| then [] else [items[i]] + Flat(children[i + 1]) + Right(items, children, i + 1)
  }

  /** The position of the first entry of child i (of item i in a leaf). */
  ghost function Start(t: Tree, i: nat): nat
    requires i <= |t.items| && (t.Branch? ==> i <= |t.children|)
  {
    if t.Leaf? then i else |Left(t.items, t.children, i)|
  }

  /** The position of item i. */
  ghost function ItemPos(t: Tree, i: nat): nat
    requires i <= |t.items| && (t.Branch? ==> i < |t.children|)
  {
    if t.Leaf? then i else Start(t, i) + |Flat(t.children[i])|
  }

  lemma {:induction false} Decompose(items: seq<Entry>, children: seq<Tree>, i: nat)
    requires |children| == |items| + 1 && i <= |items|
    ensures Flat(Branch(items, children)) ==
            Left(items, children, i) + Flat(children[i]) + Right(items, children, i)
    decreases |items| - i
  {
    var a, f, b := Left(items, children, i), Flat(children[i]), Right(items, children, i);
    if i == |items| {
      assert a + f + b == a + f;
    } else {
      Decompose(items, children, i + 1);
      var g, b' := Flat(children[i + 1]), Right(items, children, i + 1);
      assert b == [items[i]] + g + b';
      assert a + f + [items[i]] + g + b' == a + f + b;
    }
  }

  lemma {:induction false} LeftSame(items: seq<Entry>, children: seq<Tree>, items': seq<Entry>,
                                    children': seq<Tree>, i: nat)
    requires i <= |items| && i <= |children| && i <= |items'| && i <= |children'|
    requires items[..i] == items'[..i] && children[..i] == children'[..i]
    ensures Left(items, children, i) == Left(items', children', i)
  {
    if i > 0 {
      assert items[..i - 1] == items[..i][..i - 1] && items'[..i - 1] == items'[..i][..i - 1];
      assert children[..i - 1] == children[..i][..i - 1] && children'[..i - 1] == children'[..i][..i - 1];
      assert items[i - 1] == items[..i][i - 1] && items'[i - 1] == items'[..i][i - 1];
      assert children[i - 1] == children[..i][i - 1] && children'[i - 1] == children'[..i][i - 1];
      LeftSame(items, children, items', children', i - 1);
    }
  }

  lemma {:induction false} RightSame(items: seq<Entry>, children: seq<Tree>, i: nat,
                                     items': seq<Entry>, children': seq<Tree>, i': nat)
    requires i <= |items| < |children| && i' <= |items'| < |children'|
    requires items[i..] == items'[i'..] && children[i + 1..] == children'[i' + 1..]
    ensures Right(items, children, i) == Right(items', children', i')
    decreases |items| - i
  {
    assert |items| - i == |items[i..]| == |items'[i'..]|;
    if i < |items| {
      assert items[i + 1..] == items[i..][1..] && items'[i' + 1..] == items'[i'..][1..];
      assert children[i + 2..] == children[i + 1..][1..] && children'[i' + 2..] == children'[i' + 1..][1..];
      assert items[i] == items[i..][0] && items'[i'] == items'[i'..][0];
      assert children[i + 1] == children[i + 1..][0] && children'[i' + 1] == children'[i' + 1..][0];
      RightSame(items, children, i + 1, items', children', i' + 1);
    }
  }

  /** Replacing one child replaces its stretch of the contents. */
  lemma FlatChild(t: Tree, i: nat, c: Tree)
    requires t.Branch? && |t.children| == |t.items| + 1 && i <= |t.items|
    ensures Flat(t.(children := t.children[i := c])) ==
            Left(t.items, t.children, i) + Flat(c) + Right(t.items, t.children, i)
  {
    var cs := t.children[i := c];
    Decompose(t.items, cs, i);
    LeftSame(t.items, t.children, t.items, cs, i);
    RightSame(t.items, t.children, i, t.items, cs, i);
  }

  /** The item at its position, and where the next child starts. */
  lemma ItemAt(t: Tree, i: nat)
    requires i < |t.items| && (t.Branch? ==> |t.children| == |t.items| + 1)
    ensures ItemPos(t, i) < |Flat(t)| && Flat(t)[ItemPos(t, i)] == t.items[i]
    ensures Start(t, i + 1) == ItemPos(t, i) + 1
  {
    if t.Branch? {
      Decompose(t.items, t.children, i);
    }
  }

  lemma {:induction false} ItemPosMonotone(t: Tree, i: nat, j: nat)
    requires i < j < |t.items| && (t.Branch? ==> |t.children| == |t.items| + 1)
    ensures ItemPos(t, i) < ItemPos(t, j)
    decreases j
  {
    ItemAt(t, j - 1);
    if i < j - 1 { ItemPosMonotone(t, i, j - 1); }
  }

  /** The items of a node are in order when the contents are. */
  lemma ItemsSorted(t: Tree)
    requires t.Branch? ==> |t.children| == |t.items| + 1
    requires Sorted(Flat(t))
    ensures Sorted(t.items)
  {
    forall i, j | 0 <= i < j < |t.items| ensures Less(t.items[i].key, t.items[j].key) {
      ItemAt(t, i);
      ItemAt(t, j);
      ItemPosMonotone(t, i, j);
    }
  }

  /** Where a key belongs among the children of a branch that does not hold it. */
  lemma Bracket(t: Tree, k: Buffer)
    requires t.Branch? && |t.children| == |t.items| + 1 && Sorted(Flat(t)) && !Has(t.items, k)
    ensures var i := Rank(t.items, k);
      && (forall x :: 0 <= x < |Left(t.items, t.children, i)| ==> Less(Left(t.items, t.children, i)[x].key, k))
      && (Right(t.items, t.children, i) != [] ==> Less(k, Right(t.items, t.children, i)[0].key))
      && Sorted(Flat(t.children[i]))
  {
    var i := Rank(t.items, k);
    var a, f, b := Left(t.items, t.children, i), Flat(t.children[i]), Right(t.items, t.children, i);
    Decompose(t.items, t.children, i);
    SortedParts(a + f, b);
    SortedParts(a, f);
    forall x | 0 <= x < |a| ensures Less(a[x].key, k) {
      assert a[|a| - 1] == t.items[i - 1];
      if x < |a| - 1 { LessTransitive(a[x].key, a[|a| - 1].key, k); }
    }
    if b != [] {
      assert b[0] == t.items[i];
      LessTotal(k, b[0].key);
    }
  }

  /** A key held by the node itself sits at that item's position. */
  lemma FoundHere(t: Tree, k: Buffer)
    requires (t.Branch? ==> |t.children| == |t.items| + 1) && Sorted(Flat(t)) && Has(t.items, k)
    ensures Has(Flat(t), k) && Rank(Flat(t), k) == ItemPos(t, Rank(t.items, k))
  {
    ItemAt(t, Rank(t.items, k));
    HasIff(Flat(t), k);
  }

  // ---------------------------------------------------------------- joining neighbours

  /** Two sibling nodes of one kind and the item between them as a single node. */
  function Join(l: Tree, x: Entry, r: Tree): Tree
    requires l.Leaf? == r.Leaf?
  {
    if l.Leaf? then Leaf(l.items + [x] + r.items)
    else Branch(l.items + [x] + r.items, l.children + r.children)
  }

  lemma {:induction false} JoinLeft(l: Tree, x: Entry, r: Tree, j: nat)
    requires l.Branch? && r.Branch? && |l.children| == |l.items| + 1 && |r.children| == |r.items| + 1
    requires j <= |r.items|
    ensures var t := Join(l, x, r);
      Left(t.items, t.children, |l.items| + 1 + j) == Flat(l) + [x] + Left(r.items, r.children, j)
  {
    var t, n := Join(l, x, r), |l.items|;
    if j == 0 {
      LeftSame(l.items, l.children, t.items, t.children, n);
      assert Flat(l) + [x] + [] == Flat(l) + [x];
    } else {
      JoinLeft(l, x, r, j - 1);
      assert t.items[n + j] == r.items[j - 1] && t.children[n + j] == r.children[j - 1];
      var a, f := Left(r.items, r.children, j - 1), Flat(r.children[j - 1]);
      assert Flat(l) + [x] + a + f + [r.items[j - 1]] == Flat(l) + [x] + (a + f + [r.items[j - 1]]);
    }
  }

  lemma JoinFlat(l: Tree, x: Entry, r: Tree)
    requires l.Leaf? == r.Leaf?
    requires l.Branch? ==> |l.children| == |l.items| + 1 && |r.children| == |r.items| + 1
    ensures Flat(Join(l, x, r)) == Flat(l) + [x] + Flat(r)
  {
    if l.Branch? {
      var t := Join(l, x, r);
      JoinLeft(l, x, r, |r.items|);
      assert t.children[|t.items|] == r.children[|r.items|];
      var a, f := Left(r.items, r.children, |r.items|), Flat(r.children[|r.items|]);
      assert Flat(l) + [x] + a + f == Flat(l) + [x] + (a + f);
    }
  }

  /** btree_node_split on the value: the halves around the item at `mid`. */
  function LowerHalf(t: Tree, mid: nat): Tree
    requires mid < |t.items| && (t.Branch? ==> |t.children| == |t.items| + 1)
  {
    if t.Leaf? then Leaf(t.items[..mid]) else Branch(t.items[..mid], t.children[..mid + 1])
  }

  function UpperHalf(t: Tree, mid: nat): Tree
    requires mid < |t.items| && (t.Branch? ==> |t.children| == |t.items| + 1)
  {
    if t.Leaf? then Leaf(t.items[mid + 1..]) else Branch(t.items[mid + 1..], t.children[mid + 1..])
  }

  lemma SplitJoin(t: Tree, mid: nat)
    requires mid < |t.items| && (t.Branch? ==> |t.children| == |t.items| + 1)
    ensures Join(LowerHalf(t, mid), t.items[mid], UpperHalf(t, mid)) == t
    ensures Flat(t) == Flat(LowerHalf(t, mid)) + [t.items[mid]] + Flat(UpperHalf(t, mid))
  {
    assert t.items == t.items[..mid] + [t.items[mid]] + t.items[mid + 1..];
    if t.Branch? { assert t.children == t.children[..mid + 1] + t.children[mid + 1..]; }
    JoinFlat(LowerHalf(t, mid), t.items[mid], UpperHalf(t, mid));
  }

  /** Child i replaced by two children with an item between them. */
  function WithTwo(t: Tree, i: nat, l: Tree, x: Entry, r: Tree): Tree
    requires t.Branch? && |t.children| == |t.items| + 1 && i <= |t.items|
  {
    Branch(t.items[..i] + [x] + t.items[i..], t.children[..i] + [l, r] + t.children[i + 1..])
  }

  lemma Regroup(a: seq<Entry>, f: seq<Entry>, x: seq<Entry>, g: seq<Entry>, b: seq<Entry>)
    ensures a + f + (x + g + b) == a + (f + x + g) + b
  {
  }

  lemma FlatTwo(t: Tree, i: nat, l: Tree, x: Entry, r: Tree)
    requires t.Branch? && |t.children| == |t.items| + 1 && i <= |t.items|
    ensures Flat(WithTwo(t, i, l, x, r)) ==
            Left(t.items, t.children, i) + (Flat(l) + [x] + Flat(r)) + Right(t.items, t.children, i)
  {
    hide Flat, Left;
    var u := WithTwo(t, i, l, x, r);
    var a, b := Left(t.items, t.children, i), Right(t.items, t.children, i);
    Decompose(u.items, u.children, i);
    LeftSame(t.items, t.children, u.items, u.children, i);
    assert u.items[i + 1..] == t.items[i..] && u.children[i + 2..] == t.children[i + 1..];
    RightSame(t.items, t.children, i, u.items, u.children, i + 1);
    assert Right(u.items, u.children, i) == [x] + Flat(r) + b;
    Regroup(a, Flat(l), [x], Flat(r), b);
  }

  // ---------------------------------------------------------------- balance

  /** Height h, between lo and 2m+1 items here, between m and 2m+1 items in every node below. */
  ghost predicate Shape(t: Tree, h: nat, lo: nat, m: nat)
    decreases h
  {
    && lo <= |t.items| <= 2 * m + 1
    && match t
       case Leaf(_) => h == 1
       case Branch(items, children) =>
         && h > 1
         && |children| == |items| + 1
         && forall i :: 0 <= i < |children| ==> Shape(children[i], h - 1, m, m)
  }

  lemma ShapeLower(t: Tree, h: nat, lo: nat, lo': nat, m: nat)
    requires Shape(t, h, lo, m) && lo' <= |t.items|
    ensures Shape(t, h, lo', m)
  {
  }

  lemma ShapeChild(t: Tree, h: nat, lo: nat, m: nat, i: nat)
    requires 1 <= m && Shape(t, h, lo, m) && t.Branch? && i <= |t.items|
    ensures h > 1 && |t.children| == |t.items| + 1
    ensures var c := t.children[i];
      && Shape(c, h - 1, m, m) && Shape(c, h - 1, 1, m)
      && m <= |c.items| <= 2 * m + 1
      && (c.Leaf? <==> h == 2)
      && (c.Branch? ==> |c.children| == |c.items| + 1)
  {
    ShapeLower(t.children[i], h - 1, m, 1, m);
  }

  /** Replacing one child keeps the shape. */
  lemma ShapeReplace(t: Tree, h: nat, lo: nat, m: nat, i: nat, c: Tree)
    requires Shape(t, h, lo, m) && t.Branch? && i <= |t.items| && Shape(c, h - 1, m, m)
    ensures Shape(t.(children := t.children[i := c]), h, lo, m)
  {
    var cs := t.children[i := c];
    assert forall j :: 0 <= j < |cs| ==> Shape(cs[j], h - 1, m, m);
  }

  // ---------------------------------------------------------------- set

  datatype SetResult =
    | MustSplit
    | Inserted(tree: Tree)
    | Replaced(tree: Tree, old_: Entry)

  lemma ShapeHalves(c: Tree, h: nat, m: nat)
    requires Shape(c, h, 1, m) && |c.items| == 2 * m + 1
    ensures Shape(LowerHalf(c, m), h, m, m) && Shape(UpperHalf(c, m), h, m, m)
  {
    if c.Branch? {
      var a, b := c.children[..m + 1], c.children[m + 1..];
      assert forall j :: 0 <= j < |a| ==> Shape(a[j], h - 1, m, m);
      assert forall j :: 0 <= j < |b| ==> Shape(b[j], h - 1, m, m);
    }
  }

  /** Splitting the full child i of a node that has room. */
  ghost function SplitChild(t: Tree, i: nat, m: nat, h: nat): (u: Tree)
    requires 1 <= m && Shape(t, h, 1, m) && t.Branch? && i <= |t.items| <= 2 * m
    requires |t.children[i].items| == 2 * m + 1
    ensures Shape(u, h, |t.items| + 1, m) && |u.items| == |t.items| + 1
  {
    ShapeChild(t, h, 1, m, i);
    var c := t.children[i];
    ShapeHalves(c, h - 1, m);
    var u := WithTwo(t, i, LowerHalf(c, m), c.items[m], UpperHalf(c, m));
    assert forall j :: 0 <= j < |u.children| ==> Shape(u.children[j], h - 1, m, m);
    u
  }

  /** After the split the key belongs to a half-full child. */
  lemma SplitRank(t: Tree, i: nat, m: nat, h: nat, k: Buffer)
    requires 1 <= m && Shape(t, h, 1, m) && t.Branch? && i <= |t.items| <= 2 * m
    requires |t.children[i].items| == 2 * m + 1 && i == Rank(t.items, k)
    ensures var u := SplitChild(t, i, m, h);
      && i <= Rank(u.items, k) <= i + 1
      && |u.children[Rank(u.items, k)].items| == m
  {
    var u := SplitChild(t, i, m, h);
    ShapeChild(t, h, 1, m, i);
    RankIs(u.items, k, if Less(u.items[i].key, k) then i + 1 else i);
  }

  /** btree_node_set on the value. */
  ghost function SetNode(t: Tree, e: Entry, m: nat, h: nat): (r: SetResult)
    requires 1 <= m && Shape(t, h, 1, m)
    ensures r.MustSplit? ==> |t.items| == 2 * m + 1
    ensures r.MustSplit? && t.Branch? ==> |t.children[Rank(t.items, e.key)].items| == 2 * m + 1
    ensures !r.MustSplit? ==> Shape(r.tree, h, |t.items|, m)
    decreases h, 2 * m + 1 - |t.items|
  {
    var i := Rank(t.items, e.key);
    if Has(t.items, e.key) then
      Replaced(t.(items := t.items[i := e]), t.items[i])
    else if t.Leaf? then
      if |t.items| == 2 * m + 1 then MustSplit
      else Inserted(Leaf(t.items[..i] + [e] + t.items[i..]))
    else
      ShapeChild(t, h, 1, m, i);
      match SetNode(t.children[i], e, m, h - 1)
      case Inserted(c) =>
        ShapeReplace(t, h, |t.items|, m, i, c);
        Inserted(t.(children := t.children[i := c]))
      case Replaced(c, old_) =>
        ShapeReplace(t, h, |t.items|, m, i, c);
        Replaced(t.(children := t.children[i := c]), old_)
      case MustSplit =>
        if |t.items| == 2 * m + 1 then MustSplit
        else
          SplitRank(t, i, m, h, e.key);
          SetNode(SplitChild(t, i, m, h), e, m, h)
  }

  lemma AroundItem(t: Tree, i: nat)
    requires t.Branch? && |t.children| == |t.items| + 1 && i < |t.items|
    ensures Flat(t) == (Left(t.items, t.children, i) + Flat(t.children[i])) + [t.items[i]]
                       + (Flat(t.children[i + 1]) + Right(t.items, t.children, i + 1))
  {
    Decompose(t.items, t.children, i);
    var a := Left(t.items, t.children, i) + Flat(t.children[i]);
    var f, b := Flat(t.children[i + 1]), Right(t.items, t.children, i + 1);
    assert a + ([t.items[i]] + f + b) == a + [t.items[i]] + (f + b);
  }

  /** Replacing an item in place. */
  lemma FlatItem(t: Tree, i: nat, e: Entry)
    requires i < |t.items| && (t.Branch? ==> |t.children| == |t.items| + 1)
    ensures ItemPos(t, i) < |Flat(t)|
    ensures Flat(t.(items := t.items[i := e])) == Flat(t)[ItemPos(t, i) := e]
  {
    ItemAt(t, i);
    if t.Branch? {
      var its := t.items[i := e];
      AroundItem(t, i);
      AroundItem(t.(items := its), i);
      LeftSame(t.items, t.children, its, t.children, i);
      RightSame(t.items, t.children, i + 1, its, t.children, i + 1);
    }
  }

  /** The outcome of a set on contents s: a replacement exactly when the key is there. */
  ghost predicate SetMeans(s: seq<Entry>, e: Entry, r: SetResult) {
    match r
    case MustSplit => !Has(s, e.key)
    case Inserted(t) => !Has(s, e.key) && Flat(t) == Put(s, e)
    case Replaced(t, old_) => Has(s, e.key) && old_ == s[Rank(s, e.key)] && Flat(t) == Put(s, e)
  }

  /** What btree_node_set does to the ordered contents. */
  lemma {:induction false} SetNodeContents(t: Tree, e: Entry, m: nat, h: nat)
    requires 1 <= m && Shape(t, h, 1, m) && Sorted(Flat(t))
    ensures SetMeans(Flat(t), e, SetNode(t, e, m, h))
    decreases h, 2 * m + 1 - |t.items|
  {
    var i := Rank(t.items, e.key);
    if Has(t.items, e.key) || t.Leaf? {
      SetEndsHere(t, e, m, h);
    } else {
      hide Flat, Left, Right, Sorted, Less, Put;
      ShapeChild(t, h, 1, m, i);
      SetBelow(t, e, i);
      SetNodeContents(t.children[i], e, m, h - 1);
      SetPassedOn(t, e, m, h, i);
      if |t.items| <= 2 * m && SetNode(t.children[i], e, m, h - 1).MustSplit? {
        SplitContents(t, i, m, h);
        SetNodeContents(SplitChild(t, i, m, h), e, m, h);
      }
    }
  }

  /** Where the key is in the node itself, or the node is a leaf. */
  lemma SetEndsHere(t: Tree, e: Entry, m: nat, h: nat)
    requires 1 <= m && Shape(t, h, 1, m) && Sorted(Flat(t)) && (Has(t.items, e.key) || t.Leaf?)
    ensures SetMeans(Flat(t), e, SetNode(t, e, m, h))
  {
    hide Less, Sorted;
    if Has(t.items, e.key) {
      FoundHere(t, e.key);
      FlatItem(t, Rank(t.items, e.key), e);
      ItemAt(t, Rank(t.items, e.key));
    }
  }

  /** What set makes of a branch, given what it makes of the child it goes down to. */
  lemma SetPassedOn(t: Tree, e: Entry, m: nat, h: nat, i: nat)
    requires 1 <= m && Shape(t, h, 1, m) && Sorted(Flat(t)) && t.Branch? && !Has(t.items, e.key)
    requires i == Rank(t.items, e.key)
    requires Shape(t.children[i], h - 1, 1, m) && SetMeans(Flat(t.children[i]), e, SetNode(t.children[i], e, m, h - 1))
    ensures var r := SetNode(t.children[i], e, m, h - 1);
      if r.MustSplit? && |t.items| <= 2 * m then SetNode(t, e, m, h) == SetNode(SplitChild(t, i, m, h), e, m, h)
      else SetMeans(Flat(t), e, SetNode(t, e, m, h))
  {
    hide Flat, Left, Right, Sorted, Less, Put;
    ShapeChild(t, h, 1, m, i);
    SetBelow(t, e, i);
    var r := SetNode(t.children[i], e, m, h - 1);
    if !r.MustSplit? { FlatChild(t, i, r.tree); }
  }

  /** An update that the node passes down to child i. */
  lemma SetBelow(t: Tree, e: Entry, i: nat)
    requires t.Branch? && |t.children| == |t.items| + 1 && Sorted(Flat(t)) && !Has(t.items, e.key)
    requires i == Rank(t.items, e.key)
    ensures var a, c, b := Left(t.items, t.children, i), t.children[i], Right(t.items, t.children, i);
      && Sorted(Flat(c))
      && Put(Flat(t), e) == a + Put(Flat(c), e) + b
      && Has(Flat(t), e.key) == Has(Flat(c), e.key)
      && (Has(Flat(c), e.key) ==> Flat(t)[Rank(Flat(t), e.key)] == Flat(c)[Rank(Flat(c), e.key)])
  {
    var a, c, b := Left(t.items, t.children, i), t.children[i], Right(t.items, t.children, i);
    Bracket(t, e.key);
    Decompose(t.items, t.children, i);
    PutMiddle(a, Flat(c), b, e);
  }

  /** Splitting a child does not move any entry. */
  lemma SplitContents(t: Tree, i: nat, m: nat, h: nat)
    requires 1 <= m && Shape(t, h, 1, m) && t.Branch? && i <= |t.items| <= 2 * m
    requires |t.children[i].items| == 2 * m + 1
    ensures Flat(SplitChild(t, i, m, h)) == Flat(t)
  {
    ShapeChild(t, h, 1, m, i);
    var c := t.children[i];
    SplitJoin(c, m);
    FlatTwo(t, i, LowerHalf(c, m), c.items[m], UpperHalf(c, m));
    Decompose(t.items, t.children, i);
  }

  /** The key is absent and every node on the way to its place is full. */
  ghost predicate PathFull(t: Tree, k: Buffer, m: nat)
    decreases t
  {
    && |t.items| == 2 * m + 1 && !Has(t.items, k)
    && (t.Branch? && Rank(t.items, k) < |t.children| ==> PathFull(t.children[Rank(t.items, k)], k, m))
  }

  /** A node asks its caller to split it exactly when the path below it is full. */
  lemma {:induction false} MustSplitIff(t: Tree, e: Entry, m: nat, h: nat)
    requires 1 <= m && Shape(t, h, 1, m)
    ensures SetNode(t, e, m, h).MustSplit? <==> PathFull(t, e.key, m)
    decreases h
  {
    var i := Rank(t.items, e.key);
    if t.Branch? && !Has(t.items, e.key) {
      ShapeChild(t, h, 1, m, i);
      MustSplitIff(t.children[i], e, m, h - 1);
      if |t.items| <= 2 * m && SetNode(t.children[i], e, m, h - 1).MustSplit? {
        RetryOnce(t, i, e, m, h);
      }
    }
  }

  /** Nodes from t downwards, each the child that key k leads to from the one above. */
  ghost predicate Way(ns: seq<Tree>, t: Tree, k: Buffer) {
    && ns != [] && ns[0] == t
    && forall i :: 0 <= i < |ns| - 1 ==>
         ns[i].Branch? && Rank(ns[i].items, k) < |ns[i].children| && ns[i + 1] == ns[i].children[Rank(ns[i].items, k)]
  }

  /** A path is full if and only if every node that key k leads to holds 2m+1 items, none of them with that key. */
  lemma PathFullIff(t: Tree, k: Buffer, m: nat)
    ensures PathFull(t, k, m) <==>
      forall ns: seq<Tree> :: Way(ns, t, k) ==> |ns[|ns| - 1].items| == 2 * m + 1 && !Has(ns[|ns| - 1].items, k)
  {
    if PathFull(t, k, m) {
      forall ns: seq<Tree> | Way(ns, t, k) ensures |ns[|ns| - 1].items| == 2 * m + 1 && !Has(ns[|ns| - 1].items, k) {
        WayFull(ns, t, k, m);
      }
    } else {
      var ns := WayGap(t, k, m);
    }
  }

  lemma {:induction false} WayFull(ns: seq<Tree>, t: Tree, k: Buffer, m: nat)
    requires Way(ns, t, k) && PathFull(t, k, m)
    ensures |ns[|ns| - 1].items| == 2 * m + 1 && !Has(ns[|ns| - 1].items, k)
    decreases |ns|
  {
    if |ns| > 1 { WayFull(ns[1..], ns[1], k, m); }
  }

  lemma {:induction false} WayGap(t: Tree, k: Buffer, m: nat) returns (ns: seq<Tree>)
    requires !PathFull(t, k, m)
    ensures Way(ns, t, k) && (|ns[|ns| - 1].items| != 2 * m + 1 || Has(ns[|ns| - 1].items, k))
    decreases t
  {
    if |t.items| != 2 * m + 1 || Has(t.items, k) {
      ns := [t];
    } else {
      ns := WayGap(t.children[Rank(t.items, k)], k, m);
      ns := [t] + ns;
    }
  }

  /** After a split the repeated call needs no further split: each level retries at most once. */
  lemma RetryOnce(t: Tree, i: nat, e: Entry, m: nat, h: nat)
    requires 1 <= m && Shape(t, h, 1, m) && t.Branch? && i == Rank(t.items, e.key) && |t.items| <= 2 * m
    requires |t.children[i].items| == 2 * m + 1
    ensures !SetNode(SplitChild(t, i, m, h), e, m, h).MustSplit?
  {
    SplitRank(t, i, m, h, e.key);
  }

  // ---------------------------------------------------------------- rebalancing

  /** Children i and i+1 and the item between them replaced. */
  function WithPair(t: Tree, i: nat, l: Tree, x: Entry, r: Tree): Tree
    requires t.Branch? && |t.children| == |t.items| + 1 && i < |t.items|
  {
    Branch(t.items[i := x], t.children[i := l][i + 1 := r])
  }

  /** Children i and i+1 and the item between them replaced by one child. */
  function WithOne(t: Tree, i: nat, c: Tree): Tree
    requires t.Branch? && |t.children| == |t.items| + 1 && i < |t.items|
  {
    Branch(t.items[..i] + t.items[i + 1..], t.children[..i] + [c] + t.children[i + 2..])
  }

  /** The contents do not depend on how a pair of siblings shares what it holds. */
  lemma PairContents(t: Tree, i: nat, l: Tree, x: Entry, r: Tree)
    requires t.Branch? && |t.children| == |t.items| + 1 && i < |t.items|
    requires l.Leaf? == r.Leaf?
    requires l.Branch? ==> |l.children| == |l.items| + 1 && |r.children| == |r.items| + 1
    ensures Flat(WithPair(t, i, l, x, r)) == Flat(WithOne(t, i, Join(l, x, r)))
  {
    var u := WithOne(t, i, Join(l, x, r));
    var p := WithPair(t, i, l, x, r);
    assert u.items[..i] == t.items[..i] && u.items[i..] == t.items[i + 1..];
    assert p.items == u.items[..i] + [x] + u.items[i..];
    assert p.children == u.children[..i] + [l, r] + u.children[i + 1..];
    FlatTwo(u, i, l, x, r);
    JoinFlat(l, x, r);
    Decompose(u.items, u.children, i);
  }

  /** Two siblings and the item between them. */
  datatype Pair = Pair(l: Tree, x: Entry, r: Tree)

  predicate Siblings(p: Pair) {
    && p.l.Leaf? == p.r.Leaf?
    && (p.l.Branch? ==> |p.l.children| == |p.l.items| + 1 && |p.r.children| == |p.r.items| + 1)
  }

  /** One item from the left sibling through the parent to the right sibling. */
  function RotateRight(p: Pair): Pair
    requires Siblings(p) && 1 <= |p.l.items|
  {
    var n := |p.l.items|;
    if p.l.Leaf? then
      Pair(Leaf(p.l.items[..n - 1]), p.l.items[n - 1], Leaf([p.x] + p.r.items))
    else
      Pair(Branch(p.l.items[..n - 1], p.l.children[..n]), p.l.items[n - 1],
           Branch([p.x] + p.r.items, [p.l.children[n]] + p.r.children))
  }

  /** One item from the right sibling through the parent to the left sibling. */
  function RotateLeft(p: Pair): Pair
    requires Siblings(p) && 1 <= |p.r.items|
  {
    if p.l.Leaf? then
      Pair(Leaf(p.l.items + [p.x]), p.r.items[0], Leaf(p.r.items[1..]))
    else
      Pair(Branch(p.l.items + [p.x], p.l.children + [p.r.children[0]]), p.r.items[0],
           Branch(p.r.items[1..], p.r.children[1..]))
  }

  /** Rotating an item through the parent leaves the joined pair unchanged. */
  lemma RotationJoin(p: Pair)
    requires Siblings(p)
    ensures 1 <= |p.l.items| ==>
      var q := RotateRight(p); Siblings(q) && Join(q.l, q.x, q.r) == Join(p.l, p.x, p.r)
    ensures 1 <= |p.r.items| ==>
      var q := RotateLeft(p); Siblings(q) && Join(q.l, q.x, q.r) == Join(p.l, p.x, p.r)
  {
    var l, x, r := p.l, p.x, p.r;
    if 1 <= |l.items| {
      var n := |l.items|;
      assert l.items[..n - 1] + [l.items[n - 1]] + ([x] + r.items) == l.items + [x] + r.items;
      if l.Branch? { assert l.children[..n] + ([l.children[n]] + r.children) == l.children + r.children; }
    }
    if 1 <= |r.items| {
      assert (l.items + [x]) + [r.items[0]] + r.items[1..] == l.items + [x] + r.items;
      if l.Branch? { assert (l.children + [r.children[0]]) + r.children[1..] == l.children + r.children; }
    }
  }

  /** The left one of the two siblings that btree_node_rebalance looks at for child i. */
  function PairIndex(t: Tree, i: nat): nat
    requires 1 <= |t.items| && i <= |t.items|
  {
    if i == |t.items| then i - 1 else i
  }

  function PairAt(t: Tree, j: nat): Pair
    requires t.Branch? && |t.children| == |t.items| + 1 && j < |t.items|
  {
    Pair(t.children[j], t.items[j], t.children[j + 1])
  }

  /** btree_node_rebalance on the value. */
  function Rebalance(t: Tree, i: nat, m: nat): Tree
    requires 1 <= m && t.Branch? && |t.children| == |t.items| + 1 && 1 <= |t.items| && i <= |t.items|
    requires Siblings(PairAt(t, PairIndex(t, i)))
  {
    var j := PairIndex(t, i);
    var p := PairAt(t, j);
    if |p.l.items| + |p.r.items| < 2 * m + 1 then
      WithOne(t, j, Join(p.l, p.x, p.r))
    else
      var q := if |p.l.items| > |p.r.items| then RotateRight(p) else RotateLeft(p);
      WithPair(t, j, q.l, q.x, q.r)
  }

  /** A branch of height h whose child i may be one item short. */
  ghost predicate Short(t: Tree, h: nat, m: nat, i: nat) {
    && 1 <= m && t.Branch? && h > 1 && 1 <= |t.items| <= 2 * m + 1 && |t.children| == |t.items| + 1
    && i <= |t.items| && Shape(t.children[i], h - 1, m - 1, m)
    && forall j :: 0 <= j < |t.children| && j != i ==> Shape(t.children[j], h - 1, m, m)
  }

  lemma ShortPair(t: Tree, h: nat, m: nat, i: nat)
    requires Short(t, h, m, i)
    ensures var p := PairAt(t, PairIndex(t, i));
      && Shape(p.l, h - 1, m - 1, m) && Shape(p.r, h - 1, m - 1, m) && Siblings(p)
      && (PairIndex(t, i) == i ==> m <= |p.r.items|) && (PairIndex(t, i) != i ==> m <= |p.l.items|)
  {
    var j := PairIndex(t, i);
    assert Shape(t.children[if j == i then j + 1 else j], h - 1, m, m);
  }

  /** Rebalancing does not move any entry, whichever way it goes. */
  lemma RebalanceContents(t: Tree, i: nat, m: nat)
    requires 1 <= m && t.Branch? && |t.children| == |t.items| + 1 && 1 <= |t.items| && i <= |t.items|
    requires Siblings(PairAt(t, PairIndex(t, i)))
    ensures Flat(Rebalance(t, i, m)) == Flat(t)
  {
    var j := PairIndex(t, i);
    var p := PairAt(t, j);
    assert WithPair(t, j, p.l, p.x, p.r) == t;
    PairContents(t, j, p.l, p.x, p.r);
    if |p.l.items| + |p.r.items| >= 2 * m + 1 {
      var q := if |p.l.items| > |p.r.items| then RotateRight(p) else RotateLeft(p);
      RotationJoin(p);
      PairContents(t, j, q.l, q.x, q.r);
    }
  }

  /** Which way rebalancing goes: child i and its right sibling, or for the last child its left one, become a single
      node when together they hold fewer than 2m+1 items; otherwise the left one hands an item over when it holds more,
      and the right one when it does not. */
  lemma RebalanceSizes(t: Tree, i: nat, m: nat)
    requires 1 <= m && t.Branch? && |t.children| == |t.items| + 1 && 1 <= |t.items| && i <= |t.items|
    requires Siblings(PairAt(t, PairIndex(t, i)))
    ensures var j, u := if i == |t.items| then i - 1 else i, Rebalance(t, i, m);
      var a, b := |t.children[j].items|, |t.children[j + 1].items|;
      && u.Branch? && |u.children| == |u.items| + 1
      && (forall k :: 0 <= k < j ==> u.children[k] == t.children[k] && u.items[k] == t.items[k])
      && if a + b < 2 * m + 1 then
           && |u.items| == |t.items| - 1 && |u.children[j].items| == a + b + 1
           && forall k :: j + 2 <= k < |t.children| ==>
                u.children[k - 1] == t.children[k] && u.items[k - 2] == t.items[k - 1]
         else
           && |u.items| == |t.items|
           && |u.children[j].items| == (if a > b then a - 1 else a + 1)
           && |u.children[j + 1].items| == (if a > b then b + 1 else b - 1)
           && forall k :: j + 2 <= k < |t.children| ==>
                u.children[k] == t.children[k] && u.items[k - 1] == t.items[k - 1]
  {
  }

  lemma JoinShape(p: Pair, h: nat, m: nat)
    requires 1 <= m && Siblings(p) && Shape(p.l, h, m - 1, m) && Shape(p.r, h, m - 1, m)
    requires m <= |p.l.items| + |p.r.items| + 1 <= 2 * m + 1
    ensures Shape(Join(p.l, p.x, p.r), h, m, m)
  {
    if p.l.Branch? {
      var cs := p.l.children + p.r.children;
      assert forall j :: 0 <= j < |cs| ==> Shape(cs[j], h - 1, m, m);
    }
  }

  lemma RotateRightShape(p: Pair, h: nat, m: nat)
    requires 1 <= m && Siblings(p) && Shape(p.l, h, m - 1, m) && Shape(p.r, h, m - 1, m)
    requires m < |p.l.items| && |p.r.items| < 2 * m + 1
    ensures var q := RotateRight(p); Shape(q.l, h, m, m) && Shape(q.r, h, m, m)
  {
    var q := RotateRight(p);
    if p.l.Branch? {
      assert forall j :: 0 <= j < |q.l.children| ==> q.l.children[j] == p.l.children[j];
      assert forall j :: 0 < j < |q.r.children| ==> q.r.children[j] == p.r.children[j - 1];
    }
  }

  lemma RotateLeftShape(p: Pair, h: nat, m: nat)
    requires 1 <= m && Siblings(p) && Shape(p.l, h, m - 1, m) && Shape(p.r, h, m - 1, m)
    requires m < |p.r.items| && |p.l.items| < 2 * m + 1
    ensures var q := RotateLeft(p); Shape(q.l, h, m, m) && Shape(q.r, h, m, m)
  {
    var q := RotateLeft(p);
    if p.l.Branch? {
      assert forall j :: 0 <= j < |p.l.children| ==> q.l.children[j] == p.l.children[j];
      assert forall j :: 0 <= j < |q.r.children| ==> q.r.children[j] == p.r.children[j + 1];
    }
  }

  /** Rebalancing restores the shape of a branch with one short child. */
  lemma RebalanceShape(t: Tree, h: nat, i: nat, m: nat)
    requires Short(t, h, m, i) && |t.children[i].items| < m
    ensures Siblings(PairAt(t, PairIndex(t, i)))
    ensures Shape(Rebalance(t, i, m), h, |t.items| - 1, m)
    ensures |t.items| - 1 <= |Rebalance(t, i, m).items| <= |t.items|
  {
    ShortPair(t, h, m, i);
    var j := PairIndex(t, i);
    var p := PairAt(t, j);
    var u := Rebalance(t, i, m);
    if |p.l.items| + |p.r.items| < 2 * m + 1 {
      JoinShape(p, h - 1, m);
      assert forall k :: 0 <= k < j ==> u.children[k] == t.children[k];
      assert forall k :: j < k < |u.children| ==> u.children[k] == t.children[k + 1];
      assert forall k :: 0 <= k < |u.children| ==> Shape(u.children[k], h - 1, m, m);
    } else {
      if |p.l.items| > |p.r.items| { RotateRightShape(p, h - 1, m); } else { RotateLeftShape(p, h - 1, m); }
      assert forall k :: 0 <= k < |u.children| ==> Shape(u.children[k], h - 1, m, m);
    }
  }

  // ---------------------------------------------------------------- delete

  datatype Act = DelKey(key: Buffer) | PopMax | PopFront | PopBack

  datatype DelResult = NoChange | Deleted(tree: Tree, prev: Entry)

  /** Where btree_node_delete goes at this node, and whether the entry is an item of it. */
  function Target(t: Tree, act: Act): (int, bool) {
    match act
    case DelKey(k) => (Rank(t.items, k), Has(t.items, k))
    case PopMax => (|t.items| - 1, true)
    case PopFront => (0, t.Leaf?)
    case PopBack => if t.Leaf? then (|t.items| - 1, true) else (|t.items|, false)
  }

  /** The child that btree_node_delete continues in. */
  function Descends(t: Tree, act: Act): nat {
    match act
    case DelKey(k) => Rank(t.items, k)
    case PopFront => 0
    case _ => |t.items|
  }

  /** The step after the recursive call: child i has lost an item. */
  ghost function Fix(t: Tree, i: nat, m: nat, h: nat): (u: Tree)
    requires Short(t, h, m, i)
    ensures Shape(u, h, |t.items| - 1, m)
    ensures Flat(u) == Flat(t)
  {
    if |t.children[i].items| < m then
      RebalanceShape(t, h, i, m);
      RebalanceContents(t, i, m);
      Rebalance(t, i, m)
    else
      ShapeLower(t.children[i], h - 1, m - 1, m, m);
      t
  }

  /** The branch once result r has come back from the child, before rebalancing. */
  ghost function Unfixed(t: Tree, act: Act, r: DelResult): Tree
    requires t.Branch? && Descends(t, act) < |t.children| && r.Deleted?
  {
    var i := Descends(t, act);
    var u := t.(children := t.children[i := r.tree]);
    if act.DelKey? && Has(t.items, act.key) then u.(items := t.items[i := r.prev]) else u
  }

  /** Once the child has lost an item it may be short, and everything else is as it was. */
  lemma DelShort(t: Tree, act: Act, m: nat, h: nat, r: DelResult)
    requires 1 <= m && Shape(t, h, 1, m) && t.Branch? && r.Deleted? && Descends(t, act) < |t.children|
    requires 1 <= |t.children[Descends(t, act)].items|
    requires Shape(r.tree, h - 1, |t.children[Descends(t, act)].items| - 1, m)
    ensures Short(Unfixed(t, act, r), h, m, Descends(t, act)) && |Unfixed(t, act, r).items| == |t.items|
  {
    ShapeChild(t, h, 1, m, Descends(t, act));
    ShapeLower(r.tree, h - 1, |t.children[Descends(t, act)].items| - 1, m - 1, m);
  }

  /** btree_node_delete on the value. */
  ghost function DelNode(t: Tree, act: Act, m: nat, h: nat): (r: DelResult)
    requires 1 <= m && Shape(t, h, 1, m)
    ensures !act.DelKey? ==> r.Deleted?
    ensures r.Deleted? ==> Shape(r.tree, h, |t.items| - 1, m)
    decreases h
  {
    var (i, found) := Target(t, act);
    if t.Leaf? then
      if found then Deleted(Leaf(Without(t.items, i)), t.items[i]) else NoChange
    else
      var i' := if found && act.PopMax? then i + 1 else i;
      ShapeChild(t, h, 1, m, i');
      var r := DelNode(t.children[i'], if found then PopMax else act, m, h - 1);
      if r.NoChange? then NoChange
      else
        DelShort(t, act, m, h, r);
        var u := Fix(Unfixed(t, act, r), i', m, h);
        Deleted(u, if found && !act.PopMax? then t.items[i] else r.prev)
  }

  /** The position of the entry an action removes. */
  ghost function Victim(s: seq<Entry>, act: Act): (v: Option<nat>)
    ensures v.Some? ==> s == [] || v.value < |s|
  {
    match act
    case DelKey(k) => if Has(s, k) then Some(Rank(s, k)) else None
    case PopFront => Some(0)
    case _ => Some(if s == [] then 0 else |s| - 1)
  }

  /** The outcome of a delete on contents s. */
  ghost predicate DelMeans(s: seq<Entry>, act: Act, r: DelResult) {
    match Victim(s, act)
    case None => r.NoChange?
    case Some(p) => p < |s| && r.Deleted? && r.prev == s[p] && Flat(r.tree) == Without(s, p)
  }

  lemma {:induction false} ShapeNonempty(t: Tree, h: nat, m: nat)
    requires 1 <= m && Shape(t, h, 1, m)
    ensures Flat(t) != []
  {
    if t.Branch? { ItemAt(t, 0); }
  }

  /** Removal inside the part that child i holds. */
  lemma WithoutMiddle(a: seq<Entry>, b: seq<Entry>, c: seq<Entry>, p: nat)
    requires p < |b|
    ensures Without(a + b + c, |a| + p) == a + Without(b, p) + c
    ensures (a + b + c)[|a| + p] == b[p]
  {
    assert (a + b + c)[..|a| + p] == a + b[..p];
    assert (a + b + c)[|a| + p + 1..] == b[p + 1..] + c;
  }

  /** What btree_node_delete does to the ordered contents. */
  lemma {:induction false} DelNodeContents(t: Tree, act: Act, m: nat, h: nat)
    requires 1 <= m && Shape(t, h, 1, m) && Sorted(Flat(t))
    ensures DelMeans(Flat(t), act, DelNode(t, act, m, h))
    decreases h
  {
    ShapeNonempty(t, h, m);
    if t.Branch? {
      var i := Descends(t, act);
      DelSetup(t, act, m, h);
      if act.DelKey? && Has(t.items, act.key) {
        DelNodeContents(t.children[i], PopMax, m, h - 1);
        DelHere(t, act.key, m, h);
      } else {
        DelNodeContents(t.children[i], act, m, h - 1);
        DelBelow(t, act, i, m, h);
        DelLift(t, act, i, DelNode(t.children[i], act, m, h - 1), DelNode(t, act, m, h));
      }
    }
  }

  /** What the recursive step of btree_node_delete relies on. */
  lemma DelSetup(t: Tree, act: Act, m: nat, h: nat)
    requires 1 <= m && Shape(t, h, 1, m) && Sorted(Flat(t)) && t.Branch?
    ensures var i := Descends(t, act);
      && |t.children| == |t.items| + 1 && i <= |t.items|
      && Shape(t.children[i], h - 1, 1, m)
      && Sorted(Flat(t.children[i])) && Flat(t.children[i]) != []
      && (!(act.DelKey? && Has(t.items, act.key)) ==> Continues(t, act, i))
  {
    var i := Descends(t, act);
    ShapeChild(t, h, 1, m, i);
    ShapeNonempty(t.children[i], h - 1, m);
    Decompose(t.items, t.children, i);
    SortedParts(Left(t.items, t.children, i) + Flat(t.children[i]), Right(t.items, t.children, i));
    SortedParts(Left(t.items, t.children, i), Flat(t.children[i]));
  }

  /** Child i is the one an action continues in. */
  ghost predicate Continues(t: Tree, act: Act, i: nat)
    requires t.Branch? && |t.children| == |t.items| + 1
  {
    match act
    case DelKey(k) => !Has(t.items, k) && i == Rank(t.items, k)
    case PopFront => i == 0
    case _ => i == |t.items|
  }

  /** Result r for child i gives result d for the node around it. */
  ghost predicate Passes(t: Tree, i: nat, r: DelResult, d: DelResult)
    requires t.Branch? && |t.children| == |t.items| + 1 && i <= |t.items|
  {
    if r.NoChange? then d.NoChange?
    else && d.Deleted? && d.prev == r.prev
         && Flat(d.tree) == Left(t.items, t.children, i) + Flat(r.tree) + Right(t.items, t.children, i)
  }

  /** A removal from child i is a removal from the whole. */
  lemma DelLift(t: Tree, act: Act, i: nat, r: DelResult, d: DelResult)
    requires t.Branch? && |t.children| == |t.items| + 1 && Sorted(Flat(t)) && i <= |t.items|
    requires Continues(t, act, i) && Flat(t.children[i]) != []
    requires DelMeans(Flat(t.children[i]), act, r) && Passes(t, i, r, d)
    ensures DelMeans(Flat(t), act, d)
  {
    VictimBelow(t, act, i);
    if r.Deleted? {
      WithoutMiddle(Left(t.items, t.children, i), Flat(t.children[i]), Right(t.items, t.children, i),
                    Victim(Flat(t.children[i]), act).value);
    }
  }

  /** The entry is removed inside child i. */
  lemma DelBelow(t: Tree, act: Act, i: nat, m: nat, h: nat)
    requires 1 <= m && Shape(t, h, 1, m) && t.Branch? && i <= |t.items|
    requires Continues(t, act, i) && Shape(t.children[i], h - 1, 1, m)
    ensures Passes(t, i, DelNode(t.children[i], act, m, h - 1), DelNode(t, act, m, h))
  {
    var r := DelNode(t.children[i], act, m, h - 1);
    if r.Deleted? { FlatChild(t, i, r.tree); }
  }

  /** The victim of the whole is the victim of the child, shifted. */
  lemma VictimBelow(t: Tree, act: Act, i: nat)
    requires t.Branch? && |t.children| == |t.items| + 1 && Sorted(Flat(t)) && i <= |t.items|
    requires Continues(t, act, i) && Flat(t.children[i]) != []
    ensures var a, c, b := Left(t.items, t.children, i), t.children[i], Right(t.items, t.children, i);
      && Flat(t) == a + Flat(c) + b
      && Victim(Flat(t), act) ==
         match Victim(Flat(c), act) case None => None case Some(p) => Some(|a| + p)
  {
    var a, c, b := Left(t.items, t.children, i), t.children[i], Right(t.items, t.children, i);
    Decompose(t.items, t.children, i);
    if act.DelKey? {
      Bracket(t, act.key);
      RankMiddle(a, Flat(c), b, act.key);
    }
  }

  /** The entry is an item of this branch: the greatest entry below it takes its place. */
  lemma DelHere(t: Tree, k: Buffer, m: nat, h: nat)
    requires 1 <= m && Shape(t, h, 1, m) && t.Branch? && Sorted(Flat(t)) && Has(t.items, k)
    requires var c := t.children[Rank(t.items, k)];
      Shape(c, h - 1, 1, m) && DelMeans(Flat(c), PopMax, DelNode(c, PopMax, m, h - 1)) && Flat(c) != []
    ensures DelMeans(Flat(t), DelKey(k), DelNode(t, DelKey(k), m, h))
  {
    hide Fix, Left, Right;
    var i := Rank(t.items, k);
    var r := DelNode(t.children[i], PopMax, m, h - 1);
    FoundHere(t, k);
    ItemAt(t, i);
    PromoteContents(t, i, r.tree, r.prev);
  }

  /** Moving the greatest entry of child i up over item i removes item i. */
  lemma PromoteContents(t: Tree, i: nat, c: Tree, x: Entry)
    requires t.Branch? && |t.children| == |t.items| + 1 && i < |t.items|
    requires Flat(t.children[i]) == Flat(c) + [x]
    ensures ItemPos(t, i) < |Flat(t)|
    ensures Flat(t.(children := t.children[i := c]).(items := t.items[i := x])) == Without(Flat(t), ItemPos(t, i))
  {
    var u := t.(children := t.children[i := c]).(items := t.items[i := x]);
    ItemAt(t, i);
    AroundItem(t, i);
    AroundItem(u, i);
    LeftSame(t.items, t.children, u.items, u.children, i);
    RightSame(t.items, t.children, i + 1, u.items, u.children, i + 1);
    var a, b := Left(t.items, t.children, i), Flat(t.children[i + 1]) + Right(t.items, t.children, i + 1);
    assert a + Flat(c) + [x] == a + Flat(t.children[i]);
  }

  /** The action that a branch passes on to its child. */
  function Passed(t: Tree, act: Act): Act {
    if Target(t, act).1 then PopMax else act
  }

  /** What is left to do at a branch when the child has lost an entry. */
  lemma DelUnfixed(t: Tree, act: Act, m: nat, h: nat)
    requires 1 <= m && Shape(t, h, 1, m) && Sorted(Flat(t)) && t.Branch?
    requires Shape(t.children[Descends(t, act)], h - 1, 1, m)
    requires DelNode(t.children[Descends(t, act)], Passed(t, act), m, h - 1).Deleted?
    ensures var i := Descends(t, act);
      var r := DelNode(t.children[i], Passed(t, act), m, h - 1);
      var u := Unfixed(t, act, r);
      && Short(u, h, m, i) && Sorted(Flat(u))
      && DelNode(t, act, m, h)
         == Deleted(Fix(u, i, m, h), if act.DelKey? && Has(t.items, act.key) then t.items[i] else r.prev)
  {
    hide Fix, Flat, DelMeans;
    var i := Descends(t, act);
    ShapeChild(t, h, 1, m, i);
    var r := DelNode(t.children[i], Passed(t, act), m, h - 1);
    ShapeLower(r.tree, h - 1, |t.children[i].items| - 1, m - 1, m);
    DelSorted(t, act, m, h);
  }

  lemma DelSorted(t: Tree, act: Act, m: nat, h: nat)
    requires 1 <= m && Shape(t, h, 1, m) && Sorted(Flat(t))
    ensures DelNode(t, act, m, h).Deleted? ==> Sorted(Flat(DelNode(t, act, m, h).tree))
  {
    hide DelNode, Shape, Flat;
    DelNodeContents(t, act, m, h);
    var v := Victim(Flat(t), act);
    if v.Some? { SortedWithout(Flat(t), v.value); }
  }

  lemma DelUnchanged(t: Tree, act: Act, m: nat, h: nat)
    requires 1 <= m && Shape(t, h, 1, m) && t.Branch?
    requires Shape(t.children[Descends(t, act)], h - 1, 1, m)
    requires DelNode(t.children[Descends(t, act)], Passed(t, act), m, h - 1).NoChange?
    ensures DelNode(t, act, m, h).NoChange?
  {
  }

  /** Every grandchild of a branch holds something. */
  lemma ShortGrandchild(t: Tree, h: nat, m: nat, i: nat, j: nat, k: nat)
    requires Short(t, h, m, i) && j < |t.children| && t.children[j].Branch? && k < |t.children[j].children|
    ensures Flat(t.children[j].children[k]) != []
  {
    var c := t.children[j];
    assert Shape(c, h - 1, m - 1, m) by { if j != i { ShapeLower(c, h - 1, m, m - 1, m); } }
    ShapeLower(c.children[k], h - 2, m, 1, m);
    ShapeNonempty(c.children[k], h - 2, m);
  }

  // ---------------------------------------------------------------- lookup

  /** A key that this branch does not hold itself is where child i has it. */
  lemma GetBelow(t: Tree, k: Buffer, i: nat)
    requires t.Branch? && |t.children| == |t.items| + 1 && Sorted(Flat(t)) && !Has(t.items, k)
    requires i == Rank(t.items, k)
    ensures var c := t.children[i];
      && Sorted(Flat(c)) && Has(Flat(t), k) == Has(Flat(c), k)
      && (Has(Flat(c), k) ==> Flat(t)[Rank(Flat(t), k)] == Flat(c)[Rank(Flat(c), k)])
  {
    Bracket(t, k);
    Decompose(t.items, t.children, i);
    RankMiddle(Left(t.items, t.children, i), Flat(t.children[i]), Right(t.items, t.children, i), k);
  }

  // ---------------------------------------------------------------- the outermost leaves

  /** The slot of the outermost child: the last one or the first one. */
  function EdgeSlot(t: Tree, last: bool): nat {
    if last then |t.items| else 0
  }

  /** The items of the first or the last leaf. */
  ghost function EdgeItems(t: Tree, last: bool): seq<Entry>
    decreases t
  {
    if t.Branch? && EdgeSlot(t, last) < |t.children| then EdgeItems(t.children[EdgeSlot(t, last)], last) else t.items
  }

  /** The tree with the items of its first or last leaf replaced. */
  ghost function WithEdge(t: Tree, last: bool, items: seq<Entry>): Tree
    decreases t
  {
    if t.Branch? && EdgeSlot(t, last) < |t.children| then
      var i := EdgeSlot(t, last);
      t.(children := t.children[i := WithEdge(t.children[i], last, items)])
    else
      t.(items := items)
  }

  lemma {:induction false} EdgeShape(t: Tree, h: nat, lo: nat, m: nat, last: bool, items: seq<Entry>)
    requires 1 <= m && Shape(t, h, lo, m) && lo <= |items| <= 2 * m + 1 && (t.Branch? ==> m <= |items|)
    ensures Shape(WithEdge(t, last, items), h, lo, m)
    ensures EdgeItems(WithEdge(t, last, items), last) == items
    decreases h
  {
    if t.Branch? {
      var i := EdgeSlot(t, last);
      ShapeChild(t, h, lo, m, i);
      EdgeShape(t.children[i], h - 1, m, m, last, items);
      ShapeReplace(t, h, lo, m, i, WithEdge(t.children[i], last, items));
    }
  }

  /** A prefix of the first part is a prefix of the whole. */
  lemma HeadOf(e: seq<Entry>, f: seq<Entry>, r: seq<Entry>, items: seq<Entry>)
    requires |e| <= |f| && e == f[..|e|]
    ensures e == (f + r)[..|e|] && items + f[|e|..] + r == items + (f + r)[|e|..]
  {
  }

  /** The first leaf holds the beginning of the contents. */
  lemma {:induction false} EdgeFirst(t: Tree, h: nat, lo: nat, m: nat, items: seq<Entry>)
    requires 1 <= m && Shape(t, h, lo, m)
    ensures var e := EdgeItems(t, false);
      && |e| <= |Flat(t)| && e == Flat(t)[..|e|]
      && Flat(WithEdge(t, false, items)) == items + Flat(t)[|e|..]
    decreases h
  {
    if t.Branch? {
      var c := t.children[0];
      ShapeChild(t, h, lo, m, 0);
      hide Shape;
      EdgeFirst(c, h - 1, m, m, items);
      Decompose(t.items, t.children, 0);
      FlatChild(t, 0, WithEdge(c, false, items));
      var r := Right(t.items, t.children, 0);
      assert Left(t.items, t.children, 0) == [];
      assert Flat(t) == Flat(c) + r;
      assert Flat(WithEdge(t, false, items)) == Flat(WithEdge(c, false, items)) + r;
      HeadOf(EdgeItems(c, false), Flat(c), r, items);
    } else {
      assert items + [] == items;
    }
  }

  /** The last leaf holds the end of the contents. */
  lemma {:induction false} EdgeLast(t: Tree, h: nat, lo: nat, m: nat, items: seq<Entry>)
    requires 1 <= m && Shape(t, h, lo, m)
    ensures var e := EdgeItems(t, true);
      && |e| <= |Flat(t)| && e == Flat(t)[|Flat(t)| - |e|..]
      && Flat(WithEdge(t, true, items)) == Flat(t)[..|Flat(t)| - |e|] + items
    decreases h
  {
    if t.Branch? {
      var n := |t.items|;
      var c := t.children[n];
      ShapeChild(t, h, lo, m, n);
      EdgeLast(c, h - 1, m, m, items);
      FlatChild(t, n, WithEdge(c, true, items));
      var l := Left(t.items, t.children, n);
      assert Right(t.items, t.children, n) == [];
      assert Flat(t) == l + Flat(c);
      assert Flat(WithEdge(t, true, items)) == l + Flat(WithEdge(c, true, items));
    } else {
      assert [] + items == items;
    }
  }
}
