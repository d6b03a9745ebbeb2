// Whole trees as roots in the sharing structure: splitting and dropping a root, sharing it with a
// clone, and the walk along the outermost nodes that pop and load take.

module TreeSteps {
  import opened Bytes
  import opened Entries
  import opened BTreeValue
  import opened NodeGraph
  import opened NodeSteps

  // ---------------------------------------------------------------- whole trees

  ghost predicate AllFaithful<N, T>(s: State<N, T>) {
    forall n :: n in s.g ==> ValueOk(s, n)
  }

  /** The ordered contents of tree b. */
  ghost function Contents<N, T>(s: State<N, T>, b: T): seq<Entry> {
    if b in s.roots && s.roots[b] in s.g then Flat(s.g[s.roots[b]].value) else []
  }

  /** What a tree's fields promise about its root. */
  ghost predicate TreeOk<N, T>(s: State<N, T>, b: T, count: nat, height: nat, m: nat) {
    && count == |Contents(s, b)| && Sorted(Contents(s, b))
    && if b in s.roots then
         && s.roots[b] in s.g && s.g[s.roots[b]].level == height && Shape(s.g[s.roots[b]].value, height, 1, m)
       else height == 0
  }

  /** The shared memory stays in order and no tree other than b notices. */
  ghost predicate Apart<N, T>(s: State<N, T>, u: State<N, T>, b: T) {
    Linked(u) && AllFaithful(u) && Others(s, u, b)
  }

  /** A step for tree b, which does not start sharing either. */
  ghost predicate TreeStep<N, T>(s: State<N, T>, u: State<N, T>, b: T) {
    Apart(s, u, b) && Quiet(s, u)
  }

  lemma TreeStepTrans<N, T>(s: State<N, T>, u: State<N, T>, w: State<N, T>, b: T)
    requires TreeStep(s, u, b) && TreeStep(u, w, b)
    ensures TreeStep(s, w, b)
  {
    OthersTrans(s, u, w, b);
  }

  lemma OtherTree<N, T>(s: State<N, T>, u: State<N, T>, b: T, x: T, count: nat, height: nat, m: nat)
    requires Apart(s, u, b) && x != b && TreeOk(s, x, count, height, m) && Linked(s)
    ensures TreeOk(u, x, count, height, m) && Contents(u, x) == Contents(s, x)
  {
  }

  /** The root of b is unshared. */
  ghost predicate OwnRoot<N, T>(s: State<N, T>, b: T) {
    b in s.roots && s.roots[b] in s.g && Sole(s, s.roots[b], Holder(b)) && s.g[s.roots[b]].rc == 0
  }

  /** A step at the unshared root of b. */
  lemma RootStep<N, T>(s: State<N, T>, u: State<N, T>, b: T)
    requires Linked(s) && AllFaithful(s) && OwnRoot(s, b) && Kept(s, u, s.roots[b])
    ensures TreeStep(s, u, b) && u.roots == s.roots && OwnRoot(u, b)
  {
    var q := s.roots[b];
    FrameOthers(s, u, b);
    forall n | n in u.g ensures ValueOk(u, n) {
      FaithfulAbove(s, u, q, u.g[n].level);
    }
  }

  lemma AllFaithfulUpTo<N, T>(s: State<N, T>, l: nat)
    requires AllFaithful(s)
    ensures Faithful(s, l)
  {
  }

  lemma RootReady<N, T>(s: State<N, T>, b: T, count: nat, height: nat, m: nat)
    requires Linked(s) && AllFaithful(s) && b in s.roots && TreeOk(s, b, count, height, m) && 1 <= m
    ensures s.roots[b] in s.g && Ready(s, s.roots[b], m) && s.g[s.roots[b]].level == height
  {
  }

  /** Copy on write of the root. */
  lemma CowRootStep<N, T>(s: State<N, T>, b: T, d: N)
    requires Linked(s) && AllFaithful(s) && b in s.roots && d !in s.g && s.roots[b] in s.g && s.g[s.roots[b]].rc > 0
    ensures var c := s.roots[b]; var u := Cow(s, Holder(b), 0, c, d);
      && TreeStep(s, u, b) && OwnRoot(u, b) && u.roots[b] == d && SameFields(s.g[c], u.g[d])
  {
    var c := s.roots[b];
    var u := Cow(s, Holder(b), 0, c, d);
    CowLinked(s, Holder(b), 0, c, d);
    CowOthers(s, b, c, d);
    forall n | n in u.g ensures ValueOk(u, n) {
      AllFaithfulUpTo(s, u.g[n].level);
      CowFaithful(s, Holder(b), 0, c, d, u.g[n].level);
    }
  }

  lemma RootUnshared<N, T>(s: State<N, T>, b: T)
    requires Linked(s) && b in s.roots && s.roots[b] in s.g && s.g[s.roots[b]].rc <= 0
    ensures OwnRoot(s, b)
  {
    assert UpOk(s, s.roots[b]);
    SoleOwner(s, s.roots[b], Holder(b));
  }

  /** The full root of b is split under a new root q. */
  ghost function SplitRoot<N, T>(s: State<N, T>, b: T, q: N, r: N, m: nat): State<N, T>
    requires b in s.roots && s.roots[b] in s.g && q !in s.g && r !in s.g && r != q
    requires var g := Grow(s, b, q);
      OwnKid(g, q, 0) && m < |g.g[g.g[q].children[0]].items| && DealPre(g, SplitDeal(g, q, 0, m, r))
  {
    Redeal(Grow(s, b, q), SplitDeal(Grow(s, b, q), q, 0, m, r))
  }

  lemma GrowOwn<N, T>(s: State<N, T>, b: T, q: N)
    requires Linked(s) && AllFaithful(s) && OwnRoot(s, b) && q !in s.g
    ensures var g := Grow(s, b, q); TreeStep(s, g, b) && OwnRoot(g, b) && g.roots[b] == q && OwnKid(g, q, 0)
  {
    var g := Grow(s, b, q);
    GrowLinked(s, b, q);
    forall n | n in g.g ensures ValueOk(g, n) {
      AllFaithfulUpTo(s, g.g[n].level);
      GrowFaithful(s, b, q, g.g[n].level);
    }
    assert DownOk(g, q) && DownOk(g, s.roots[b]);
  }

  lemma SplitRootStep<N, T>(s: State<N, T>, b: T, q: N, r: N, m: nat, h: nat)
    requires Linked(s) && AllFaithful(s) && OwnRoot(s, b) && q !in s.g && r !in s.g && r != q
    requires 1 <= m && Shape(s.g[s.roots[b]].value, h, 1, m) && |s.g[s.roots[b]].items| == 2 * m + 1
    ensures OwnKid(Grow(s, b, q), q, 0) && m < |Grow(s, b, q).g[Grow(s, b, q).g[q].children[0]].items|
    ensures DealPre(Grow(s, b, q), SplitDeal(Grow(s, b, q), q, 0, m, r))
    ensures var u := SplitRoot(s, b, q, r, m); var v := s.g[s.roots[b]].value;
      && TreeStep(s, u, b) && OwnRoot(u, b) && u.roots[b] == q && u.g[q].level == s.g[s.roots[b]].level + 1
      && |u.g[q].items| == 1
      && m < |v.items| && (v.Branch? ==> |v.children| == |v.items| + 1)
      && u.g[q].value == Branch([v.items[m]], [LowerHalf(v, m), UpperHalf(v, m)])
  {
    hide Linked, Frame, DealPre, DownOk, AllFaithful;
    var g, v := Grow(s, b, q), s.g[s.roots[b]].value;
    GrowOwn(s, b, q);
    assert ValueOk(s, s.roots[b]) by { assert AllFaithful(s); AllFaithfulUpTo(s, s.g[s.roots[b]].level); }
    SplitDealOk(g, q, 0, m, r);
    SplitDealValue(g, q, 0, m, r);
    AllFaithfulUpTo(g, g.g[q].level);
    DealStep(g, SplitDeal(g, q, 0, m, r));
    DealFields(g, SplitDeal(g, q, 0, m, r));
    RootStep(g, SplitRoot(s, b, q, r, m), b);
    TreeStepTrans(s, g, SplitRoot(s, b, q, r, m), b);
  }

  /** The contents and the shape of a freshly split root. */
  lemma SplitRootValue(v: Tree, h: nat, m: nat)
    requires 1 <= m && Shape(v, h, 1, m) && |v.items| == 2 * m + 1 && 1 <= h
    ensures v.Branch? ==> |v.children| == |v.items| + 1
    ensures var w := Branch([v.items[m]], [LowerHalf(v, m), UpperHalf(v, m)]);
      Shape(w, h + 1, 1, m) && Flat(w) == Flat(v)
  {
    var w := Branch([v.items[m]], [LowerHalf(v, m), UpperHalf(v, m)]);
    ShapeHalves(v, h, m);
    assert Flat(w) == Flat(v) by {
      hide Shape, LowerHalf, UpperHalf;
      SplitJoin(v, m);
      AroundItem(w, 0);
      assert Left(w.items, w.children, 0) + Flat(w.children[0]) == Flat(w.children[0]);
      assert Flat(w.children[1]) + Right(w.items, w.children, 1) == Flat(w.children[1]);
    }
  }

  /** A branch root without items has a single child. */
  lemma CollapseReady<N, T>(s: State<N, T>, b: T)
    requires Linked(s) && AllFaithful(s) && OwnRoot(s, b) && !s.g[s.roots[b]].leaf && s.g[s.roots[b]].items == []
    ensures CollapsePre(s, b)
    ensures var q := s.roots[b]; var c := s.g[q].children[0];
      s.g[c].level + 1 == s.g[q].level && s.g[q].value == Branch([], [s.g[c].value])
  {
    var q := s.roots[b];
    assert DownOk(s, q) && ValueOk(s, q) && KidOk(s, q, s.g[q].children[0]);
  }

  /** The root of b has run empty and its only child takes its place. */
  lemma CollapseStep<N, T>(s: State<N, T>, b: T)
    requires Linked(s) && AllFaithful(s) && OwnRoot(s, b) && !s.g[s.roots[b]].leaf && s.g[s.roots[b]].items == []
    ensures CollapsePre(s, b) && TreeStep(s, Collapse(s, b), b) && Contents(Collapse(s, b), b) == Contents(s, b)
    ensures var q := s.roots[b]; var c := s.g[q].children[0];
      && s.g[c].level + 1 == s.g[q].level && s.g[q].value == Branch([], [s.g[c].value])
      && Collapse(s, b).roots[b] == c && c in Collapse(s, b).g && SameFields(s.g[c], Collapse(s, b).g[c])
  {
    hide AllFaithful, Ups, Downs, Others;
    CollapseReady(s, b);
    SingleFlat(s.g[s.g[s.roots[b]].children[0]].value);
    CollapseLinked(s, b);
    CollapseValues(s, b);
  }

  lemma CollapseValues<N, T>(s: State<N, T>, b: T)
    requires CollapsePre(s, b) && AllFaithful(s) && Downs(Collapse(s, b))
    ensures AllFaithful(Collapse(s, b))
  {
    var u := Collapse(s, b);
    forall n | n in u.g ensures ValueOk(u, n) {
      AllFaithfulUpTo(s, u.g[n].level);
      FaithfulSame(s, u, u.g[n].level);
    }
  }

  lemma SingleFlat(c: Tree)
    ensures Flat(Branch([], [c])) == Flat(c)
  {
  }

  /** The root of b is a leaf that has run empty. */
  lemma UprootStep<N, T>(s: State<N, T>, b: T)
    requires Linked(s) && AllFaithful(s) && OwnRoot(s, b) && s.g[s.roots[b]].leaf
    ensures UprootPre(s, b) && TreeStep(s, Uproot(s, b), b) && Contents(Uproot(s, b), b) == []
  {
    assert DownOk(s, s.roots[b]);
    UprootLinked(s, b);
    var u := Uproot(s, b);
    forall n | n in u.g ensures ValueOk(u, n) {
      AllFaithfulUpTo(s, u.g[n].level);
      FaithfulSame(s, u, u.g[n].level);
    }
  }

  lemma PlantStep<N, T>(s: State<N, T>, b: T, d: N, e: Entry)
    requires Linked(s) && AllFaithful(s) && b !in s.roots && d !in s.g
    ensures TreeStep(s, Plant(s, b, d, e), b) && Contents(Plant(s, b, d, e), b) == [e]
  {
    PlantLinked(s, b, d, e);
    var u := Plant(s, b, d, e);
    forall n | n in u.g ensures ValueOk(u, n) {
      AllFaithfulUpTo(s, u.g[n].level);
      PlantFaithful(s, b, d, e, u.g[n].level);
    }
  }

  lemma ShareStep<N, T>(s: State<N, T>, b: T, b2: T)
    requires Linked(s) && AllFaithful(s) && b in s.roots && s.roots[b] in s.g && b2 !in s.roots
    ensures Apart(s, Share(s, b, b2), b2)
    ensures Contents(Share(s, b, b2), b2) == Contents(s, b)
  {
    ShareLinked(s, b, b2);
    var u := Share(s, b, b2);
    forall n | n in u.g ensures ValueOk(u, n) {
      AllFaithfulUpTo(s, u.g[n].level);
      FaithfulSame(s, u, u.g[n].level);
    }
  }

  // ---------------------------------------------------------------- outcomes for whole trees

  /** What btree_set0 does to tree b, given the value-level result for its root. */
  lemma SetTreeOk<N, T>(s: State<N, T>, u: State<N, T>, b: T, count: nat, height: nat, m: nat, e: Entry, r: Mut)
    requires b in s.roots && TreeOk(s, b, count, height, m) && SetPost(s, u, s.roots[b], m, e, r) && u.roots == s.roots
    requires s.g[s.roots[b]].level == height
    ensures r.MutMustSplit? ==> !Has(Contents(s, b), e.key) && u.g[s.roots[b]].value == s.g[s.roots[b]].value
                                && TreeOk(u, b, count, height, m) && Contents(u, b) == Contents(s, b)
                                && |s.g[s.roots[b]].value.items| == 2 * m + 1
    ensures !r.MutMustSplit? ==> Contents(u, b) == Put(Contents(s, b), e)
                                 && TreeOk(u, b, if r.MutInserted? then count + 1 else count, height, m)
    ensures r.MutInserted? ==> !Has(Contents(s, b), e.key)
    ensures r.MutReplaced? ==> Has(Contents(s, b), e.key) && r.was == Contents(s, b)[Rank(Contents(s, b), e.key)]
    ensures r.MutMustSplit? || r.MutInserted? || r.MutReplaced?
  {
    hide Linked, Faithful, Flat, SetNode;
    var q := s.roots[b];
    var v := s.g[q].value;
    SetNodeContents(v, e, m, height);
    PutSorted(Flat(v), e);
    var res := SetNode(v, e, m, height);
    if !res.MustSplit? { ShapeLower(res.tree, height, |v.items|, 1, m); }
  }

  /** What btree_delete0 does to tree b before it looks at an empty root. */
  lemma DelTreeOk<N, T>(s: State<N, T>, u: State<N, T>, b: T, count: nat, height: nat, m: nat, act: Act, r: Mut)
    requires b in s.roots && TreeOk(s, b, count, height, m) && DelPost(s, u, s.roots[b], m, act, r)
    requires u.roots == s.roots
    requires s.g[s.roots[b]].level == height
    ensures var c, p := Contents(s, b), Victim(Contents(s, b), act);
      if p.None? then r.MutNoChange? && u.g[s.roots[b]].value == s.g[s.roots[b]].value
      else && p.value < |c| && r == MutDeleted(c[p.value]) && Contents(u, b) == Without(c, p.value)
           && Sorted(Contents(u, b)) && |Contents(u, b)| + 1 == count
           && Shape(u.g[s.roots[b]].value, height, 0, m)
           && (u.g[s.roots[b]].value.items != [] ==> TreeOk(u, b, count - 1, height, m))
    ensures u.g[s.roots[b]].level == height
  {
    hide Linked, Faithful, Flat, DelNode;
    var q := s.roots[b];
    var v := s.g[q].value;
    DelNodeContents(v, act, m, height);
    var p := Victim(Flat(v), act);
    if p.Some? {
      SortedWithout(Flat(v), p.value);
      var w := DelNode(v, act, m, height).tree;
      ShapeLower(w, height, |v.items| - 1, 0, m);
      if w.items != [] { ShapeLower(w, height, 0, 1, m); }
    }
  }

  lemma SameRoots<N, T>(s: State<N, T>, u: State<N, T>, b: T, x: T)
    requires Others(s, u, b) && x != b
    ensures x in u.roots <==> x in s.roots
    ensures x in s.roots ==> u.roots[x] == s.roots[x]
  {
  }

  lemma NewRoots<N, T>(s: State<N, T>, u: State<N, T>, b: T)
    requires Others(s, u, b)
    ensures forall x :: x in u.roots ==> x == b || x in s.roots
  {
  }

  lemma StayStep<N, T>(s: State<N, T>, b: T)
    requires Linked(s) && AllFaithful(s)
    ensures TreeStep(s, s, b)
  {
  }

  lemma CowRootKids<N, T>(s: State<N, T>, c: N)
    requires c in s.g && Linked(s)
    ensures Distinct(s.g[c].children) && forall k :: k in s.g[c].children ==> k in s.g && k != c
  {
    assert DownOk(s, c);
    forall k | k in s.g[c].children ensures k in s.g && k != c {
      var j :| 0 <= j < |s.g[c].children| && s.g[c].children[j] == k;
      assert KidOk(s, c, s.g[c].children[j]);
    }
  }

  /** Splitting a full root, as a step for the tree. */
  lemma SplitRootTree<N, T>(s: State<N, T>, b: T, q: N, r: N, count: nat, height: nat, m: nat)
    requires Linked(s) && AllFaithful(s) && OwnRoot(s, b) && q !in s.g && r !in s.g && r != q
    requires 1 <= m && TreeOk(s, b, count, height, m) && |s.g[s.roots[b]].items| == 2 * m + 1
    ensures OwnKid(Grow(s, b, q), q, 0) && m < |Grow(s, b, q).g[Grow(s, b, q).g[q].children[0]].items|
    ensures DealPre(Grow(s, b, q), SplitDeal(Grow(s, b, q), q, 0, m, r))
    ensures var u := SplitRoot(s, b, q, r, m);
      && TreeStep(s, u, b) && OwnRoot(u, b) && u.roots[b] == q && |u.g[q].items| == 1
      && TreeOk(u, b, count, height + 1, m) && Contents(u, b) == Contents(s, b)
      && (forall n :: n in u.g ==> n in s.g || n == q || n == r)
  {
    hide Linked, AllFaithful, DealPre, Flat, Sorted, Shape, Others;
    var v := s.g[s.roots[b]].value;
    RootFields(s, b);
    SplitRootStep(s, b, q, r, m, height);
    SplitRootValue(v, height, m);
  }

  lemma RootFields<N, T>(s: State<N, T>, b: T)
    requires Linked(s) && AllFaithful(s) && OwnRoot(s, b)
    ensures 1 <= s.g[s.roots[b]].level
    ensures s.g[s.roots[b]].value.items == s.g[s.roots[b]].items
  {
    assert DownOk(s, s.roots[b]) && ValueOk(s, s.roots[b]);
  }

  lemma NodeFields<N, T>(s: State<N, T>, n: N)
    requires Linked(s) && n in s.g
    ensures s.g[n].leaf ==> s.g[n].children == []
    ensures !s.g[n].leaf ==> |s.g[n].children| == |s.g[n].items| + 1
  {
    assert DownOk(s, n);
  }

  lemma PlantOk<N, T>(s: State<N, T>, b: T, d: N, e: Entry, m: nat)
    requires b !in s.roots && d !in s.g && 1 <= m
    ensures TreeOk(Plant(s, b, d, e), b, 1, 1, m)
  {
  }

  lemma EmptyTree<N, T>(s: State<N, T>, b: T, count: nat, height: nat, m: nat)
    requires TreeOk(s, b, count, height, m) && b !in s.roots
    ensures count == 0 && height == 0 && Contents(s, b) == []
  {
  }

  lemma CollapseOk<N, T>(s: State<N, T>, b: T, count: nat, height: nat, m: nat)
    requires CollapsePre(s, b) && AllFaithful(s) && !s.g[s.roots[b]].leaf && 1 <= m
    requires Sorted(Contents(s, b)) && |Contents(s, b)| == count
    requires s.g[s.roots[b]].level == height && Shape(s.g[s.roots[b]].value, height, 0, m)
    requires var c := s.g[s.roots[b]].children[0];
      && s.g[c].level + 1 == height && s.g[s.roots[b]].value == Branch([], [s.g[c].value])
      && c in Collapse(s, b).g && SameFields(s.g[c], Collapse(s, b).g[c])
      && Contents(Collapse(s, b), b) == Contents(s, b)
    ensures TreeOk(Collapse(s, b), b, count, height - 1, m)
  {
    hide Flat, Sorted;
    var v := s.g[s.roots[b]].value;
    ShapeChild(v, height, 0, m, 0);
  }

  lemma UprootOk<N, T>(s: State<N, T>, b: T, count: nat, height: nat, m: nat)
    requires UprootPre(s, b) && Linked(s) && AllFaithful(s) && s.g[s.roots[b]].leaf && s.g[s.roots[b]].items == []
    requires |Contents(s, b)| == count && s.g[s.roots[b]].level == height
    ensures count == 0 && height == 1 && Contents(s, b) == [] && TreeOk(Uproot(s, b), b, 0, 0, m)
  {
    assert DownOk(s, s.roots[b]) && ValueOk(s, s.roots[b]);
  }

  // ---------------------------------------------------------------- walking down an edge

  function EdgeIndex<N, T>(r: Rec<N, T>, last: bool): nat {
    if last then |r.items| else 0
  }

  /** Nodes from a root down along the first or the last children, each unshared under the one before it. */
  ghost predicate EdgePath<N, T>(s: State<N, T>, path: seq<N>, last: bool) {
    && path != [] && (forall j :: 0 <= j < |path| ==> path[j] in s.g)
    && forall j :: 0 <= j < |path| - 1 ==> EdgeLink(s, path[j], path[j + 1], last)
  }

  lemma {:induction false} EdgeLevels<N, T>(s: State<N, T>, path: seq<N>, last: bool, j: nat)
    requires EdgePath(s, path, last) && j < |path|
    ensures s.g[path[j]].level + j == s.g[path[0]].level
    decreases j
  {
    if j > 0 {
      EdgeLevels(s, path, last, j - 1);
      assert EdgeLink(s, path[j - 1], path[j - 1 + 1], last);
    }
  }

  /** Links further up survive copy on write at node p. */
  lemma OwnKidUp<N, T>(s: State<N, T>, u: State<N, T>, p: N, i: nat, q: N, k: nat)
    requires CowStep(s, u, p, i) && AllFaithful(u) && OwnKid(s, q, k) && s.g[p].level < s.g[q].level
    ensures OwnKid(u, q, k) && u.g[q] == s.g[q]
  {
    var c := s.g[q].children[k];
    assert u.g[q] == s.g[q];
    assert c != p ==> u.g[c] == s.g[c];
    assert DownOk(u, q) && DownOk(u, c) && ValueOk(u, q) && ValueOk(u, c);
  }

  ghost predicate EdgeLink<N, T>(s: State<N, T>, p: N, q: N, last: bool) {
    p in s.g && OwnKid(s, p, EdgeIndex(s.g[p], last)) && q == s.g[p].children[EdgeIndex(s.g[p], last)]
  }

  lemma EdgeLinkUp<N, T>(s: State<N, T>, u: State<N, T>, p: N, i: nat, q: N, c: N, last: bool)
    requires CowStep(s, u, p, i) && AllFaithful(u) && EdgeLink(s, q, c, last) && s.g[p].level < s.g[q].level
    ensures EdgeLink(u, q, c, last)
  {
    hide Linked, Frame, AllFaithful;
    OwnKidUp(s, u, p, i, q, EdgeIndex(s.g[q], last));
  }

  /** One more step down the edge. */
  lemma EdgeExtend<N, T>(s: State<N, T>, u: State<N, T>, path: seq<N>, last: bool, m: nat)
    requires EdgePath(s, path, last) && AllFaithful(u) && Ready(s, path[|path| - 1], m)
    requires CowStep(s, u, path[|path| - 1], EdgeIndex(s.g[path[|path| - 1]], last))
    requires Faithful(s, s.g[path[|path| - 1]].level) ==> Faithful(u, s.g[path[|path| - 1]].level)
    ensures var p := path[|path| - 1];
      p in u.g && EdgeIndex(s.g[p], last) < |u.g[p].children|
      && EdgePath(u, path + [u.g[p].children[EdgeIndex(s.g[p], last)]], last)
  {
    hide Ready, CowStep, AllFaithful, OwnKid, EdgePath;
    EdgeTop(s, path, last);
    var n := |path|;
    var p := path[n - 1];
    var i := EdgeIndex(s.g[p], last);
    CowStepReady(s, u, p, i, m);
    ChildItems(u, p, i);
    CowFields(s, u, p, i);
    forall j | 0 <= j < n - 1 ensures EdgeLink(u, path[j], path[j + 1], last) { EdgeKept(s, u, path, last, i, j); }
    EdgePathMore(u, path, u.g[p].children[i], last);
  }

  lemma EdgePathMore<N, T>(u: State<N, T>, path: seq<N>, q: N, last: bool)
    requires path != [] && EdgeLink(u, path[|path| - 1], q, last) && q in u.g
    requires forall j :: 0 <= j < |path| - 1 ==> EdgeLink(u, path[j], path[j + 1], last)
    ensures EdgePath(u, path + [q], last)
  {
    var n, more := |path|, path + [q];
    forall j | 0 <= j < n ensures EdgeLink(u, more[j], more[j + 1], last) && more[j] in u.g {
      if j < n - 1 { assert EdgeLink(u, path[j], path[j + 1], last); }
    }
  }

  lemma EdgeKept<N, T>(s: State<N, T>, u: State<N, T>, path: seq<N>, last: bool, i: nat, j: nat)
    requires EdgePath(s, path, last) && AllFaithful(u) && j < |path| - 1
    requires CowStep(s, u, path[|path| - 1], i)
    ensures EdgeLink(u, path[j], path[j + 1], last)
  {
    hide CowStep, AllFaithful;
    assert EdgeLink(s, path[j], path[j + 1], last);
    EdgeLevels(s, path, last, |path| - 1);
    EdgeLevels(s, path, last, j);
    EdgeLinkUp(s, u, path[|path| - 1], i, path[j], path[j + 1], last);
  }

  lemma CowFields<N, T>(s: State<N, T>, u: State<N, T>, p: N, i: nat)
    requires CowStep(s, u, p, i)
    ensures p in s.g && p in u.g && u.g[p].items == s.g[p].items
  {
  }

  /** Copy on write below an unshared root, as a step for the tree. */
  lemma CowDeep<N, T>(s: State<N, T>, u: State<N, T>, b: T, p: N, i: nat, count: nat, height: nat, m: nat)
    requires Linked(s) && AllFaithful(s) && OwnRoot(s, b) && TreeOk(s, b, count, height, m)
    requires CowStep(s, u, p, i) && (forall l: nat :: Faithful(s, l) ==> Faithful(u, l))
    requires s.g[p].level <= s.g[s.roots[b]].level
    ensures TreeStep(s, u, b) && OwnRoot(u, b) && u.roots == s.roots && TreeOk(u, b, count, height, m)
    ensures Contents(u, b) == Contents(s, b) && u.g[s.roots[b]].value == s.g[s.roots[b]].value
  {
    hide Flat, Sorted, Shape;
    forall n | n in u.g ensures ValueOk(u, n) {
      AllFaithfulUpTo(s, u.g[n].level);
      assert Faithful(u, u.g[n].level);
    }
  }

  /** Same objects, possibly other values. */
  ghost predicate RealSame<N, T>(s: State<N, T>, u: State<N, T>) {
    && u.g.Keys == s.g.Keys
    && forall n :: n in u.g ==> u.g[n].rc == s.g[n].rc && u.g[n].leaf == s.g[n].leaf
                                && u.g[n].items == s.g[n].items && u.g[n].children == s.g[n].children
  }

  /** Bringing the values along the edge up to date after its leaf has changed. */
  lemma {:induction false} LiftEdge<N, T>(s: State<N, T>, u: State<N, T>, path: seq<N>, last: bool, items: seq<Entry>)
    returns (w: State<N, T>)
    requires EdgePath(s, path, last) && Linked(s) && AllFaithful(s) && s.g[path[|path| - 1]].leaf
    requires Kept(s, u, path[|path| - 1]) && u.g[path[|path| - 1]].value == Leaf(items)
    ensures RealSame(u, w) && Kept(s, w, path[0])
    ensures w.g[path[0]].value == WithEdge(s.g[path[0]].value, last, items)
    decreases |path|
  {
    hide Linked, Frame, Faithful, DownOk;
    var p := path[0];
    assert ValueOk(s, p);
    if |path| == 1 {
      w := u;
    } else {
      var i := EdgeIndex(s.g[p], last);
      assert EdgeLink(s, path[0], path[0 + 1], last);
      assert EdgePath(s, path[1..], last);
      var x := LiftEdge(s, u, path[1..], last, items);
      AllFaithfulUpTo(s, s.g[p].level);
      ChildItems(s, p, i);
      ChildStep(s, x, p, i, s.g[p].items);
      w := Refresh(s, x, p, i, s.g[p].items);
    }
  }

  lemma {:induction false} EdgeValue<N, T>(s: State<N, T>, path: seq<N>, last: bool)
    requires EdgePath(s, path, last) && AllFaithful(s) && s.g[path[|path| - 1]].leaf
    ensures EdgeItems(s.g[path[0]].value, last) == s.g[path[|path| - 1]].items
    ensures |path| > 1 ==> s.g[path[0]].value.Branch?
    ensures |path| == 1 ==> s.g[path[0]].value.Leaf?
    decreases |path|
  {
    assert ValueOk(s, path[0]);
    if |path| > 1 {
      assert EdgeLink(s, path[0], path[0 + 1], last);
      ChildItems(s, path[0], EdgeIndex(s.g[path[0]], last));
      assert EdgePath(s, path[1..], last);
      EdgeValue(s, path[1..], last);
    }
  }

  /** Writing new items into the outermost leaf, as a step for the tree. */
  lemma EdgeTree<N, T>(s: State<N, T>, w: State<N, T>, b: T, path: seq<N>, last: bool, items: seq<Entry>,
                       count: nat, height: nat, m: nat)
    requires Linked(s) && AllFaithful(s) && OwnRoot(s, b) && TreeOk(s, b, count, height, m) && 1 <= m
    requires EdgePath(s, path, last) && path[0] == s.roots[b] && s.g[path[|path| - 1]].leaf
    requires Kept(s, w, path[0]) && w.g[path[0]].value == WithEdge(s.g[path[0]].value, last, items)
    requires 1 <= |items| <= 2 * m + 1 && (|path| > 1 ==> m <= |items|)
    ensures var c, e := Contents(s, b), s.g[path[|path| - 1]].items;
      && |e| <= |c|
      && (if last then e == c[|c| - |e|..] else e == c[..|e|])
      && Contents(w, b) == (if last then c[..|c| - |e|] + items else items + c[|e|..])
    ensures TreeStep(s, w, b) && OwnRoot(w, b) && w.roots == s.roots
    ensures Sorted(Contents(w, b)) ==> TreeOk(w, b, |Contents(w, b)|, height, m)
  {
    hide Linked, AllFaithful, Frame, Faithful, Flat, Sorted, Others;
    var v := s.g[path[0]].value;
    RootStep(s, w, b);
    RootFields(s, b);
    EdgeValue(s, path, last);
    KeptLevel(s, w, path[0]);
    ShapeLower(v, height, 1, 1, m);
    EdgeShape(v, height, 1, m, last, items);
    if last { EdgeLast(v, height, 1, m, items); } else { EdgeFirst(v, height, 1, m, items); }
  }

  lemma KeptLevel<N, T>(s: State<N, T>, u: State<N, T>, p: N)
    requires Kept(s, u, p)
    ensures p in s.g && p in u.g && u.g[p].level == s.g[p].level
  {
  }

  lemma LeafFlat(v: Tree)
    requires v.Leaf?
    ensures Flat(v) == v.items
  {
  }

  lemma ShareOk<N, T>(s: State<N, T>, b: T, b2: T, count: nat, height: nat, m: nat)
    requires b in s.roots && s.roots[b] in s.g && b2 !in s.roots && TreeOk(s, b, count, height, m)
    ensures TreeOk(Share(s, b, b2), b, count, height, m) && TreeOk(Share(s, b, b2), b2, count, height, m)
    ensures Contents(Share(s, b, b2), b) == Contents(s, b)
  {
  }

  lemma EmptyOk<N, T>(s: State<N, T>, b: T, b2: T, count: nat, height: nat, m: nat)
    requires b !in s.roots && b2 !in s.roots && TreeOk(s, b, count, height, m)
    ensures TreeOk(s, b2, count, height, m) && Contents(s, b2) == Contents(s, b)
  {
  }

  lemma RootStart<N, T>(s: State<N, T>, b: T, count: nat, height: nat, m: nat)
    requires Linked(s) && AllFaithful(s) && OwnRoot(s, b) && TreeOk(s, b, count, height, m) && 1 <= m
    ensures b in s.roots && s.roots[b] in s.g && Ready(s, s.roots[b], m)
  {
    RootReady(s, b, count, height, m);
  }

  lemma EdgeStart<N, T>(s: State<N, T>, p: N, last: bool)
    requires p in s.g
    ensures EdgePath(s, [p], last)
  {
  }

  lemma EdgeTop<N, T>(s: State<N, T>, path: seq<N>, last: bool)
    requires EdgePath(s, path, last)
    ensures path != [] && path[0] in s.g && path[|path| - 1] in s.g && s.g[path[|path| - 1]].level <= s.g[path[0]].level
  {
    EdgeLevels(s, path, last, |path| - 1);
  }

  lemma RootIn<N, T>(s: State<N, T>, b: T)
    requires Linked(s) && b in s.roots
    ensures s.roots[b] in s.g
  {
  }

  lemma CountIs<N, T>(s: State<N, T>, b: T, count: nat, height: nat, m: nat)
    requires TreeOk(s, b, count, height, m)
    ensures count == |Contents(s, b)| && Sorted(Contents(s, b))
  {
  }

  lemma LeafWrite<N, T>(s: State<N, T>, p: N, items: seq<Entry>)
    requires Linked(s) && AllFaithful(s) && p in s.g && s.g[p].leaf
    ensures Kept(s, SetItems(s, p, items, Leaf(items)), p)
  {
    hide Linked, Frame;
    assert ValueOk(s, p);
    AllFaithfulUpTo(s, s.g[p].level);
    SetItemsStep(s, p, items, Leaf(items));
  }

  /** How many items the outermost leaf has. */
  lemma LeafBound<N, T>(s: State<N, T>, b: T, path: seq<N>, last: bool, count: nat, height: nat, m: nat)
    requires AllFaithful(s) && OwnRoot(s, b) && TreeOk(s, b, count, height, m) && 1 <= m
    requires EdgePath(s, path, last) && path[0] == s.roots[b] && s.g[path[|path| - 1]].leaf
    ensures var n := |s.g[path[|path| - 1]].items|; 1 <= n <= 2 * m + 1 && (|path| > 1 ==> m <= n)
  {
    hide Flat, Sorted;
    EdgeValue(s, path, last);
    EdgeBound(s.g[path[0]].value, height, 1, m, last);
  }

  lemma {:induction false} EdgeBound(t: Tree, h: nat, lo: nat, m: nat, last: bool)
    requires 1 <= m && Shape(t, h, lo, m)
    ensures |EdgeItems(t, last)| <= 2 * m + 1
    ensures if t.Branch? then m <= |EdgeItems(t, last)| else lo <= |EdgeItems(t, last)|
    decreases h
  {
    if t.Branch? {
      ShapeChild(t, h, lo, m, EdgeSlot(t, last));
      EdgeBound(t.children[EdgeSlot(t, last)], h - 1, m, m, last);
    }
  }

  // ---------------------------------------------------------------- writing an item in place

  /** Below node p, which holds key k somewhere, the node that has it. */
  ghost function KeyNode<N, T>(s: State<N, T>, p: N, m: nat, k: Buffer): (n: N)
    requires Ready(s, p, m) && Has(Flat(s.g[p].value), k)
    ensures n in s.g && s.g[n].level <= s.g[p].level && Has(s.g[n].items, k)
    decreases s.g[p].level
  {
    ReadyFields(s, p, m);
    if Has(s.g[p].items, k) then p
    else
      KeyBelow(s, p, m, k);
      KeyNode(s, s.g[p].children[Rank(s.g[p].items, k)], m, k)
  }

  /** A key that node p does not have itself is in the child at its rank. */
  lemma KeyBelow<N, T>(s: State<N, T>, p: N, m: nat, k: Buffer)
    requires Ready(s, p, m) && Has(Flat(s.g[p].value), k) && !Has(s.g[p].items, k)
    ensures !s.g[p].leaf && Rank(s.g[p].items, k) < |s.g[p].children|
    ensures var c := s.g[p].children[Rank(s.g[p].items, k)];
      && c in s.g && Ready(s, c, m) && Has(Flat(s.g[c].value), k) && s.g[c].level < s.g[p].level
  {
    hide Shape, Flat;
    ReadyFields(s, p, m);
    var v, i := s.g[p].value, Rank(s.g[p].items, k);
    if v.Leaf? {
      LeafFlat(v);
    } else {
      GetBelow(v, k, i);
      ReadyDown(s, p, i, m);
    }
  }

  /** u is s with item i of node n replaced by e; values apart. */
  ghost predicate ItemWritten<N, T>(s: State<N, T>, u: State<N, T>, n: N, i: nat, e: Entry) {
    && n in s.g && i < |s.g[n].items| && u.g.Keys == s.g.Keys && u.roots == s.roots
    && forall x :: x in s.g ==>
         && u.g[x].rc == s.g[x].rc && u.g[x].leaf == s.g[x].leaf && u.g[x].children == s.g[x].children
         && u.g[x].items == if x == n then s.g[n].items[i := e] else s.g[x].items
  }

  lemma WriteHere<N, T>(s: State<N, T>, p: N, m: nat, e: Entry) returns (u: State<N, T>)
    requires Ready(s, p, m) && Has(s.g[p].items, e.key)
    ensures ItemWritten(s, u, p, Rank(s.g[p].items, e.key), e)
    ensures SetPost(s, u, p, m, e, MutReplaced(s.g[p].items[Rank(s.g[p].items, e.key)]))
  {
    hide Linked, Faithful, Frame, Flat, Sorted, DownOk, Quiet;
    ReadyFields(s, p, m);
    var items := s.g[p].items[Rank(s.g[p].items, e.key) := e];
    u := SetItems(s, p, items, s.g[p].value.(items := items));
    SetItemsStep(s, p, items, s.g[p].value.(items := items));
  }

  lemma WriteAbove<N, T>(s: State<N, T>, x: State<N, T>, p: N, m: nat, e: Entry, was: Entry) returns (u: State<N, T>)
    requires Ready(s, p, m) && Alone(s) && Has(Flat(s.g[p].value), e.key) && !Has(s.g[p].items, e.key)
    requires var i := Rank(s.g[p].items, e.key);
      && i < |s.g[p].children| && SetPost(s, x, s.g[p].children[i], m, e, MutReplaced(was))
      && s.g[p].children[i] in s.g && s.g[s.g[p].children[i]].level < s.g[p].level
    ensures SetPost(s, u, p, m, e, MutReplaced(was))
    ensures u.g.Keys == x.g.Keys && u.roots == x.roots && p in x.g
    ensures forall n :: n in x.g ==>
      && u.g[n].rc == x.g[n].rc && u.g[n].leaf == x.g[n].leaf && u.g[n].children == x.g[n].children
      && u.g[n].items == if n == p then s.g[p].items else x.g[n].items
  {
    hide Linked, Faithful, Frame, Flat, Sorted, DownOk, Quiet, Shape, SetNode, SetPost, SetChildPost, CowStep;
    ReadyFields(s, p, m);
    var i := Rank(s.g[p].items, e.key);
    CowStepIdle(s, p, i);
    SetChildOk(s, s, x, p, i, m, e, MutReplaced(was));
    u := Refresh(s, x, p, i, s.g[p].items);
    SetChildDone(s, u, p, i, m, e, MutReplaced(was));
  }

  /** Where no node is shared, writing a stored item in place is what a set of that key does. */
  lemma {:induction false} WriteInPlace<N, T>(s: State<N, T>, p: N, m: nat, e: Entry)
    returns (u: State<N, T>, was: Entry)
    requires p in s.g && Ready(s, p, m) && Alone(s) && Has(Flat(s.g[p].value), e.key)
    ensures var n := KeyNode(s, p, m, e.key); ItemWritten(s, u, n, Rank(s.g[n].items, e.key), e)
    ensures SetPost(s, u, p, m, e, MutReplaced(was))
    decreases s.g[p].level
  {
    hide Ready, Flat, SetPost, Alone;
    if Has(s.g[p].items, e.key) {
      was := s.g[p].items[Rank(s.g[p].items, e.key)];
      u := WriteHere(s, p, m, e);
    } else {
      KeyBelow(s, p, m, e.key);
      var x;
      x, was := WriteInPlace(s, s.g[p].children[Rank(s.g[p].items, e.key)], m, e);
      u := WriteAbove(s, x, p, m, e, was);
    }
  }
}
