// The recursive node algorithms of the B-tree as steps of the sharing structure: what set and
// delete do below one node, and that everything outside that node's subtree stays as it was.

module NodeSteps {
  import opened Bytes
  import opened Entries
  import opened BTreeValue
  import opened NodeGraph

  // ---------------------------------------------------------------- steps of the recursion

  /** What the node methods start from: below node p everything is in order. */
  ghost predicate Ready<N, T>(s: State<N, T>, p: N, m: nat) {
    && 1 <= m && p in s.g && Linked(s) && Faithful(s, s.g[p].level)
    && Shape(s.g[p].value, s.g[p].level, 1, m) && Sorted(Flat(s.g[p].value))
  }

  /** What the node methods keep whatever they do to the value of p. */
  ghost predicate Kept<N, T>(s: State<N, T>, u: State<N, T>, p: N) {
    p in s.g && p in u.g && Linked(u) && Faithful(u, s.g[p].level) && Frame(s, u, p) && Quiet(s, u)
  }

  lemma KeptTrans<N, T>(s: State<N, T>, u: State<N, T>, w: State<N, T>, p: N)
    requires Kept(s, u, p) && Kept(u, w, p)
    ensures Kept(s, w, p)
  {
    FrameTrans(s, u, w, p);
  }

  /** The fields of a ready node, read off its value. */
  lemma ReadyFields<N, T>(s: State<N, T>, p: N, m: nat)
    requires Ready(s, p, m)
    ensures var v, r := s.g[p].value, s.g[p];
      && v.items == r.items && v.Leaf? == r.leaf && Sorted(r.items) && 1 <= |r.items| <= 2 * m + 1
      && KidsKnown(s, r.children) && DownOk(s, p) && ValueOk(s, p)
      && (v.Branch? ==>
            |r.children| == |r.items| + 1 && |v.children| == |r.children| && v.children == Values(s, r.children))
  {
    assert ValueOk(s, p) && DownOk(s, p);
    ItemsSorted(s.g[p].value);
  }

  lemma CowStepReady<N, T>(s: State<N, T>, u: State<N, T>, p: N, i: nat, m: nat)
    requires Ready(s, p, m) && CowStep(s, u, p, i)
    requires Faithful(s, s.g[p].level) ==> Faithful(u, s.g[p].level)
    ensures Ready(u, p, m) && Kept(s, u, p) && OwnKid(u, p, i) && u.g[p].value == s.g[p].value
  {
    assert DownOk(u, p) && ValueOk(u, p);
    var k := u.g[p].children[i];
    assert KidOk(u, p, k) && DownOk(u, k) && ValueOk(u, k);
  }

  /** Any child of a ready node is ready, shared or not. */
  lemma ReadyDown<N, T>(s: State<N, T>, p: N, i: nat, m: nat)
    requires Ready(s, p, m) && !s.g[p].leaf && i <= |s.g[p].items|
    ensures i < |s.g[p].children| && s.g[p].children[i] in s.g && Ready(s, s.g[p].children[i], m)
    ensures s.g[s.g[p].children[i]].level + 1 == s.g[p].level
    ensures s.g[p].value.Branch? && i < |s.g[p].value.children|
    ensures s.g[s.g[p].children[i]].value == s.g[p].value.children[i]
  {
    hide Flat;
    ReadyFields(s, p, m);
    assert KidOk(s, p, s.g[p].children[i]);
    var v := s.g[p].value;
    ShapeChild(v, s.g[p].level, 1, m, i);
    Decompose(v.items, v.children, i);
    SortedParts(Left(v.items, v.children, i) + Flat(v.children[i]), Right(v.items, v.children, i));
    SortedParts(Left(v.items, v.children, i), Flat(v.children[i]));
  }

  /** The unshared child of a ready node is ready. */
  lemma ReadyChild<N, T>(s: State<N, T>, p: N, i: nat, m: nat)
    requires Ready(s, p, m) && OwnKid(s, p, i)
    ensures !s.g[p].leaf && i <= |s.g[p].items| && Ready(s, s.g[p].children[i], m)
    ensures s.g[p].value.Branch? && i < |s.g[p].value.children|
    ensures s.g[s.g[p].children[i]].value == s.g[p].value.children[i]
  {
    hide Flat, Shape, Sorted;
    ReadyFields(s, p, m);
    ReadyDown(s, p, i, m);
  }

  /** After a step at the unshared child i of p, bringing the value of p up to date. */
  ghost function Refresh<N, T>(s: State<N, T>, u: State<N, T>, p: N, i: nat, items: seq<Entry>): State<N, T>
    requires p in s.g && p in u.g && s.g[p].value.Branch? && i < |s.g[p].children| && i < |s.g[p].value.children|
    requires s.g[p].children[i] in u.g
  {
    SetItems(u, p, items, Branch(items, s.g[p].value.children[i := u.g[s.g[p].children[i]].value]))
  }

  lemma ChildStepBut<N, T>(s: State<N, T>, u: State<N, T>, p: N, i: nat, n: N)
    requires OwnKid(s, p, i) && Linked(s) && Faithful(s, s.g[p].level) && Kept(s, u, s.g[p].children[i])
    requires n in u.g && n != p && u.g[n].level <= s.g[p].level
    ensures ValueOk(u, n)
  {
    var c := s.g[p].children[i];
    if u.g[n].level == s.g[p].level {
      assert n in s.g && u.g[n] == s.g[n] && DownOk(s, n) && ValueOk(s, n);
      var cs := s.g[n].children;
      forall j | 0 <= j < |cs| ensures cs[j] in u.g && u.g[cs[j]] == s.g[cs[j]] {
        assert KidOk(s, n, cs[j]);
      }
      ValueKept(s, u, n);
    }
  }

  lemma ChildStepValues<N, T>(s: State<N, T>, u: State<N, T>, p: N, i: nat)
    requires OwnKid(s, p, i) && Kept(s, u, s.g[p].children[i])
    ensures p in u.g && u.g[p] == s.g[p] && KidsKnown(s, s.g[p].children) && KidsKnown(u, s.g[p].children)
    ensures Values(u, s.g[p].children) == Values(s, s.g[p].children)[i := u.g[s.g[p].children[i]].value]
  {
    var c, cs := s.g[p].children[i], s.g[p].children;
    forall j | 0 <= j < |cs| && j != i ensures cs[j] in u.g && cs[j] in s.g && u.g[cs[j]] == s.g[cs[j]] {
      assert KidOk(s, p, cs[j]);
    }
    assert Values(u, cs) == Values(s, cs)[i := u.g[c].value];
  }

  /** A step at an unshared child, seen from its parent. */
  lemma ChildStep<N, T>(s: State<N, T>, u: State<N, T>, p: N, i: nat, items: seq<Entry>)
    requires OwnKid(s, p, i) && Linked(s) && Faithful(s, s.g[p].level) && Kept(s, u, s.g[p].children[i])
    requires |items| == |s.g[p].items|
    ensures p in u.g && u.g[p] == s.g[p] && s.g[p].value.Branch? && i < |s.g[p].value.children|
    ensures s.g[p].children[i] in u.g
    ensures Kept(s, Refresh(s, u, p, i, items), p)
    ensures Refresh(s, u, p, i, items).g[s.g[p].children[i]] == u.g[s.g[p].children[i]]
  {
    var c := s.g[p].children[i];
    assert KidOk(s, p, c);
    ChildStepValues(s, u, p, i);
    assert ValueOk(s, p);
    var w := Refresh(s, u, p, i, items);
    forall n | n in u.g && n != p && u.g[n].level <= s.g[p].level ensures ValueOk(u, n) {
      ChildStepBut(s, u, p, i, n);
    }
    SetItemsLinked(u, p, items, w.g[p].value);
    SetItemsFaithful(u, p, items, w.g[p].value);
    FrameUp(s, u, p, c);
    FrameTrans(s, u, w, p);
  }

  lemma DealStep<N, T>(s: State<N, T>, d: Deal<N>)
    requires DealPre(s, d) && Linked(s) && Faithful(s, s.g[d.p].level)
    ensures Kept(s, Redeal(s, d), d.p) && Redeal(s, d).g[d.p].value == DealParent(s, d)
  {
    DealLinked(s, d);
    DealFaithful(s, d);
    DealFrame(s, d);
    DealFields(s, d);
    DealQuiet(s, d);
  }

  lemma DealQuiet<N, T>(s: State<N, T>, d: Deal<N>)
    requires DealPre(s, d)
    ensures Quiet(s, Redeal(s, d))
  {
    DealKnown(s, d);
  }

  lemma SetItemsStep<N, T>(s: State<N, T>, p: N, items: seq<Entry>, v: Tree)
    requires p in s.g && Linked(s) && Faithful(s, s.g[p].level)
    requires s.g[p].leaf || |items| == |s.g[p].items|
    requires s.g[p].value.Leaf? == s.g[p].leaf
    requires v == s.g[p].value.(items := items)
    ensures Kept(s, SetItems(s, p, items, v), p)
  {
    assert ValueOk(s, p) && DownOk(s, p);
    SetItemsLinked(s, p, items, v);
    SetItemsFaithful(s, p, items, v);
  }

  /** enum btree_mut_result, with the entry that the call hands back. */
  datatype Mut =
    | MutNoChange
    | MutMustSplit
    | MutInserted
    | MutReplaced(was: Entry)
    | MutDeleted(was: Entry)

  // ---------------------------------------------------------------- set, step by step

  /** Result r and new value v' of a node are what the value-level result t says. */
  ghost predicate SetOutcome(t: SetResult, r: Mut, v: Tree, v': Tree) {
    match t
    case MustSplit => r.MutMustSplit? && v' == v
    case Inserted(u) => r.MutInserted? && v' == u
    case Replaced(u, old_) => r == MutReplaced(old_) && v' == u
  }

  /** What btree_node_set on a ready node p achieves. */
  ghost predicate SetPost<N, T>(s: State<N, T>, u: State<N, T>, p: N, m: nat, e: Entry, r: Mut) {
    && Ready(s, p, m) && Kept(s, u, p)
    && SetOutcome(SetNode(s.g[p].value, e, m, s.g[p].level), r, s.g[p].value, u.g[p].value)
  }

  /** The value of a branch after a set on its child i. */
  ghost predicate ChildOutcome(v: Tree, v': Tree, i: nat, h: nat, m: nat, e: Entry, r: Mut) {
    && v.Branch? && i < |v.children| == |v.items| + 1 && 1 < h && 1 <= m && Shape(v.children[i], h - 1, 1, m)
    && v'.Branch? && v'.items == v.items && i < |v'.children| && v'.children == v.children[i := v'.children[i]]
    && SetOutcome(SetNode(v.children[i], e, m, h - 1), r, v.children[i], v'.children[i])
  }

  ghost predicate SetChildPost<N, T>(s: State<N, T>, u: State<N, T>, p: N, i: nat, m: nat, e: Entry, r: Mut) {
    && p in s.g && p in u.g && u.g[p].items == s.g[p].items && u.g[p].level == s.g[p].level
    && Ready(s, p, m) && Kept(s, u, p) && OwnKid(u, p, i)
    && ChildOutcome(s.g[p].value, u.g[p].value, i, s.g[p].level, m, e, r)
  }

  /** From copy on write of the child and the call on it to the state with the parent's value refreshed. */
  lemma SetChildOk<N, T>(s: State<N, T>, s1: State<N, T>, s2: State<N, T>, p: N, i: nat, m: nat, e: Entry, r: Mut)
    requires Ready(s, p, m) && CowStep(s, s1, p, i) && (Faithful(s, s.g[p].level) ==> Faithful(s1, s.g[p].level))
    requires SetPost(s1, s2, s1.g[p].children[i], m, e, r)
    ensures p in s2.g && s2.g[p] == s1.g[p] && s1.g[p].children[i] in s2.g
    ensures s1.g[p].value.Branch? && i < |s1.g[p].value.children|
    ensures SetChildPost(s, Refresh(s1, s2, p, i, s1.g[p].items), p, i, m, e, r)
  {
    hide Linked, Faithful, Frame, DownOk, Shape, Flat, Sorted, SetNode;
    CowStepReady(s, s1, p, i, m);
    ReadyChild(s1, p, i, m);
    ReadyFields(s1, p, m);
    ChildStep(s1, s2, p, i, s1.g[p].items);
    var u := Refresh(s1, s2, p, i, s1.g[p].items);
    KeptTrans(s, s1, u, p);
    OwnKidAfter(s1, s2, u, p, i);
  }

  lemma OwnKidAfter<N, T>(s: State<N, T>, u: State<N, T>, w: State<N, T>, p: N, i: nat)
    requires OwnKid(s, p, i) && Kept(s, u, s.g[p].children[i]) && Kept(s, w, p)
    requires w.g[p].children == s.g[p].children
    requires s.g[p].children[i] in w.g && w.g[s.g[p].children[i]] == u.g[s.g[p].children[i]]
    ensures OwnKid(w, p, i)
  {
    assert DownOk(w, p) && ValueOk(w, p);
    assert DownOk(w, s.g[p].children[i]) && ValueOk(w, s.g[p].children[i]);
  }

  /** The call on the child settled the matter, or this node is full as well. */
  lemma SetChildDone<N, T>(s: State<N, T>, u: State<N, T>, p: N, i: nat, m: nat, e: Entry, r: Mut)
    requires SetChildPost(s, u, p, i, m, e, r)
    requires i == Rank(s.g[p].items, e.key) && !Has(s.g[p].items, e.key)
    requires !r.MutMustSplit? || |s.g[p].items| == 2 * m + 1
    ensures SetPost(s, u, p, m, e, r)
  {
    ReadyFields(s, p, m);
    var v, v' := s.g[p].value, u.g[p].value;
    assert v' == v.(children := v.children[i := v'.children[i]]);
    if r.MutMustSplit? { assert v.children[i := v.children[i]] == v.children; }
  }

  /** The child must be split and there is room for it. */
  lemma SetChildSplit<N, T>(s: State<N, T>, u: State<N, T>, p: N, i: nat, m: nat, e: Entry, r: Mut)
    requires SetChildPost(s, u, p, i, m, e, r) && r.MutMustSplit?
    ensures u.g[p].value == s.g[p].value && Ready(u, p, m)
    ensures |u.g[u.g[p].children[i]].items| == 2 * m + 1
  {
    var v, v' := s.g[p].value, u.g[p].value;
    assert v' == v.(children := v.children[i := v'.children[i]]);
    assert v.children[i := v.children[i]] == v.children;
    assert ValueOk(u, p) && DownOk(u, p);
    assert u.g[u.g[p].children[i]].value == v'.children[i];
  }

  ghost predicate SplitPost<N, T>(s: State<N, T>, u: State<N, T>, p: N, i: nat, m: nat) {
    && p in s.g && p in u.g && |u.g[p].items| == |s.g[p].items| + 1 && u.g[p].level == s.g[p].level
    && Ready(s, p, m) && Kept(s, u, p) && Ready(u, p, m)
    && s.g[p].value.Branch? && i <= |s.g[p].value.items| <= 2 * m
    && |s.g[p].value.children[i].items| == 2 * m + 1
    && u.g[p].value == SplitChild(s.g[p].value, i, m, s.g[p].level)
  }

  /** Splitting the full child i of a ready node with room. */
  lemma SplitStep<N, T>(s: State<N, T>, p: N, i: nat, m: nat, r: N)
    requires Ready(s, p, m) && OwnKid(s, p, i) && r !in s.g && |s.g[p].items| <= 2 * m
    requires |s.g[s.g[p].children[i]].items| == 2 * m + 1
    ensures DealPre(s, SplitDeal(s, p, i, m, r)) && SplitPost(s, Redeal(s, SplitDeal(s, p, i, m, r)), p, i, m)
  {
    SplitDealOk(s, p, i, m, r);
    SplitDealValue(s, p, i, m, r);
    DealStep(s, SplitDeal(s, p, i, m, r));
    SplitContents(s.g[p].value, i, m, s.g[p].level);
    var u := Redeal(s, SplitDeal(s, p, i, m, r));
    ShapeLower(u.g[p].value, u.g[p].level, |s.g[p].items| + 1, 1, m);
  }

  /** After the split, the retry finishes. */
  lemma SetRetry<N, T>(s: State<N, T>, s1: State<N, T>, s2: State<N, T>, u: State<N, T>, p: N, i: nat, m: nat,
                       e: Entry, r: Mut)
    requires SetChildPost(s, s1, p, i, m, e, MutMustSplit) && SplitPost(s1, s2, p, i, m) && SetPost(s2, u, p, m, e, r)
    requires i == Rank(s.g[p].items, e.key) && !Has(s.g[p].items, e.key)
    ensures SetPost(s, u, p, m, e, r)
  {
    ReadyFields(s, p, m);
    SetChildSplit(s, s1, p, i, m, e, MutMustSplit);
    KeptTrans(s1, s2, u, p);
    KeptTrans(s, s1, u, p);
    var v, h := s.g[p].value, s.g[p].level;
    assert SetNode(v, e, m, h) == SetNode(SplitChild(v, i, m, h), e, m, h);
    SplitRank(v, i, m, h, e.key);
  }

  // ---------------------------------------------------------------- delete, step by step

  ghost predicate DelOutcome(t: DelResult, r: Mut, v: Tree, v': Tree) {
    match t
    case NoChange => r.MutNoChange? && v' == v
    case Deleted(u, prev) => r == MutDeleted(prev) && v' == u
  }

  /** What btree_node_delete on a ready node p achieves. */
  ghost predicate DelPost<N, T>(s: State<N, T>, u: State<N, T>, p: N, m: nat, act: Act, r: Mut) {
    && p in s.g && p in u.g && Ready(s, p, m) && Kept(s, u, p)
    && DelOutcome(DelNode(s.g[p].value, act, m, s.g[p].level), r, s.g[p].value, u.g[p].value)
  }

  /** The sibling that is made ready for rebalancing with child i of n+1. */
  function Sibling(i: nat, n: nat): nat
    requires 1 <= n && i <= n
  {
    if i == n then i - 1 else i + 1
  }

  /** After copy on write of child i and its sibling. */
  ghost predicate PairReady<N, T>(s: State<N, T>, u: State<N, T>, p: N, i: nat, m: nat) {
    && p in s.g && p in u.g && Ready(s, p, m) && Ready(u, p, m) && Kept(s, u, p)
    && u.g[p].value == s.g[p].value && u.g[p].items == s.g[p].items && u.g[p].level == s.g[p].level
    && 1 <= |u.g[p].items| && i <= |u.g[p].items|
    && OwnKid(u, p, i) && OwnKid(u, p, Sibling(i, |u.g[p].items|))
  }

  lemma CowAgain<N, T>(s: State<N, T>, u: State<N, T>, p: N, i: nat, j: nat, m: nat)
    requires Ready(s, p, m) && OwnKid(s, p, i) && i != j && CowStep(s, u, p, j)
    requires Faithful(s, s.g[p].level) ==> Faithful(u, s.g[p].level)
    ensures OwnKid(u, p, i)
  {
    CowStepReady(s, u, p, j, m);
    var c := s.g[p].children[i];
    assert DownOk(s, p) && DownOk(u, p) && ValueOk(u, p);
    assert c != s.g[p].children[j];
    assert u.g[c] == s.g[c];
    assert DownOk(u, c) && ValueOk(u, c);
  }

  lemma PairReadyOk<N, T>(s: State<N, T>, s1: State<N, T>, u: State<N, T>, p: N, i: nat, m: nat)
    requires Ready(s, p, m) && !s.g[p].leaf && i <= |s.g[p].items|
    requires CowStep(s, s1, p, i) && (Faithful(s, s.g[p].level) ==> Faithful(s1, s.g[p].level))
    requires 1 <= |s.g[p].items| && CowStep(s1, u, p, Sibling(i, |s.g[p].items|))
    requires Faithful(s1, s.g[p].level) ==> Faithful(u, s.g[p].level)
    ensures PairReady(s, u, p, i, m)
  {
    hide Linked, Faithful, Frame, DownOk, ValueOk, Shape, Flat, Sorted;
    CowStepReady(s, s1, p, i, m);
    CowStepReady(s1, u, p, Sibling(i, |s.g[p].items|), m);
    CowAgain(s1, u, p, i, Sibling(i, |s.g[p].items|), m);
    KeptTrans(s, s1, u, p);
  }

  /** The value of a branch after the call on its child, before rebalancing. */
  ghost function AfterChild(v: Tree, act: Act, d: DelResult): Tree
    requires v.Branch? && Descends(v, act) < |v.children|
  {
    if d.Deleted? then Unfixed(v, act, d) else v
  }

  ghost predicate DelChildOutcome(v: Tree, v': Tree, h: nat, m: nat, act: Act, r: Mut) {
    && v.Branch? && |v.children| == |v.items| + 1 && 1 < h && 1 <= m && Descends(v, act) <= |v.items|
    && var i := Descends(v, act);
       && Shape(v.children[i], h - 1, 1, m)
       && var d := DelNode(v.children[i], Passed(v, act), m, h - 1);
          v' == AfterChild(v, act, d) && r == if d.Deleted? then MutDeleted(d.prev) else MutNoChange
  }

  /** After the call on the child, with the parent's value refreshed. */
  ghost predicate DelChildPost<N, T>(s: State<N, T>, u: State<N, T>, p: N, i: nat, m: nat, act: Act, r: Mut) {
    && p in s.g && p in u.g && Ready(s, p, m) && Kept(s, u, p) && 1 <= |s.g[p].items| && i <= |s.g[p].items|
    && |u.g[p].items| == |s.g[p].items| && u.g[p].level == s.g[p].level
    && OwnKid(u, p, i) && OwnKid(u, p, Sibling(i, |u.g[p].items|))
    && DelChildOutcome(s.g[p].value, u.g[p].value, s.g[p].level, m, act, r)
  }

  /** A sibling of the child that was worked on is as it was. */
  lemma OwnSiblingAfter<N, T>(s: State<N, T>, u: State<N, T>, w: State<N, T>, p: N, i: nat, j: nat)
    requires OwnKid(s, p, i) && OwnKid(s, p, j) && i != j && Kept(s, u, s.g[p].children[i]) && Kept(s, w, p)
    requires w.g[p].children == s.g[p].children
    requires forall n :: n in u.g && n != p ==> n in w.g && w.g[n] == u.g[n]
    ensures OwnKid(w, p, j)
  {
    var c := s.g[p].children[j];
    assert c != s.g[p].children[i] by { assert DownOk(s, p); }
    assert u.g[c] == s.g[c] && w.g[c] == s.g[c];
    assert DownOk(w, p) && ValueOk(w, p) && DownOk(w, c) && ValueOk(w, c);
  }

  /** The items of the branch after the call on the child. */
  function ItemsAfter(items: seq<Entry>, act: Act, r: Mut): seq<Entry> {
    if act.DelKey? && Has(items, act.key) && r.MutDeleted? then items[Rank(items, act.key) := r.was] else items
  }

  lemma DelChildOk<N, T>(s: State<N, T>, s1: State<N, T>, s2: State<N, T>, p: N, m: nat, act: Act, r: Mut)
    requires p in s.g && !s.g[p].leaf && PairReady(s, s1, p, Descends(s.g[p].value, act), m)
    requires DelPost(s1, s2, s1.g[p].children[Descends(s.g[p].value, act)], m, Passed(s.g[p].value, act), r)
    ensures p in s2.g && s2.g[p] == s1.g[p] && s1.g[p].children[Descends(s.g[p].value, act)] in s2.g
    ensures s1.g[p].value.Branch? && Descends(s.g[p].value, act) < |s1.g[p].value.children|
    ensures DelChildPost(s, Refresh(s1, s2, p, Descends(s.g[p].value, act), ItemsAfter(s1.g[p].items, act, r)),
                         p, Descends(s.g[p].value, act), m, act, r)
  {
    hide Linked, Faithful, Frame, DownOk, Flat, Sorted, DelNode;
    var i, its := Descends(s.g[p].value, act), ItemsAfter(s1.g[p].items, act, r);
    ReadyChild(s1, p, i, m);
    ReadyFields(s1, p, m);
    ChildStep(s1, s2, p, i, its);
    var u := Refresh(s1, s2, p, i, its);
    KeptTrans(s, s1, u, p);
    OwnKidAfter(s1, s2, u, p, i);
    OwnSiblingAfter(s1, s2, u, p, i, Sibling(i, |s1.g[p].items|));
  }

  ghost predicate RebalancePost<N, T>(s: State<N, T>, u: State<N, T>, p: N, i: nat, m: nat) {
    && Kept(s, u, p) && s.g[p].value.Branch? && |s.g[p].value.children| == |s.g[p].value.items| + 1
    && 1 <= m && 1 <= |s.g[p].value.items| && i <= |s.g[p].value.items|
    && Siblings(PairAt(s.g[p].value, PairIndex(s.g[p].value, i)))
    && u.g[p].value == Rebalance(s.g[p].value, i, m)
  }

  /** btree_node_rebalance, with the deal it comes down to. */
  ghost function RebalanceDeal<N, T>(s: State<N, T>, p: N, j: nat, m: nat): Deal<N>
    requires OwnPair(s, p, j) && 1 <= m
  {
    var (l, x, r) := PairOf(s, p, j);
    if |l.items| + |r.items| < 2 * m + 1 then MergeDeal(s, p, j)
    else if |l.items| > |r.items| then RightDeal(s, p, j)
    else LeftDeal(s, p, j)
  }

  lemma RebalanceDealOk<N, T>(s: State<N, T>, p: N, j: nat, m: nat)
    requires OwnPair(s, p, j) && 1 <= m
    ensures DealPre(s, RebalanceDeal(s, p, j, m))
  {
    hide DealPre, DownOk, ValueOk;
    MergeDealOk(s, p, j);
    var (l, x, r) := PairOf(s, p, j);
    if |l.items| + |r.items| >= 2 * m + 1 {
      if |l.items| > |r.items| { RightDealOk(s, p, j); } else { LeftDealOk(s, p, j); }
    }
  }

  lemma RebalanceStep<N, T>(s: State<N, T>, p: N, i: nat, m: nat)
    requires 1 <= m && p in s.g && 1 <= |s.g[p].items| && i <= |s.g[p].items| && Linked(s) && Faithful(s, s.g[p].level)
    requires var j := if i == |s.g[p].items| then i - 1 else i; OwnPair(s, p, j)
    ensures var d := RebalanceDeal(s, p, if i == |s.g[p].items| then i - 1 else i, m);
      DealPre(s, d) && RebalancePost(s, Redeal(s, d), p, i, m)
  {
    hide DealPre, DownOk, ValueOk, Linked, Faithful, Frame, DealParent, Redeal;
    var j := if i == |s.g[p].items| then i - 1 else i;
    var d := RebalanceDeal(s, p, j, m);
    RebalanceDealOk(s, p, j, m);
    PairValues(s, p, j);
    var (l, x, r) := PairOf(s, p, j);
    if |l.items| + |r.items| < 2 * m + 1 {
      MergeDealValue(s, p, j);
    } else if |l.items| > |r.items| {
      RightDealValue(s, p, j);
    } else {
      LeftDealValue(s, p, j);
    }
    DealStep(s, d);
  }

  /** The entry handed back by a branch. */
  function Handed(items: seq<Entry>, act: Act, r: Mut): Mut {
    if r.MutDeleted? && act.DelKey? && Has(items, act.key) then MutDeleted(items[Rank(items, act.key)]) else r
  }

  /** The call on the child failed to find the key. */
  lemma DelNothing<N, T>(s: State<N, T>, u: State<N, T>, p: N, i: nat, m: nat, act: Act, r: Mut)
    requires DelChildPost(s, u, p, i, m, act, r) && !r.MutDeleted?
    ensures DelPost(s, u, p, m, act, r)
  {
    hide Linked, Faithful, Frame, DownOk, Flat, Sorted, ValueOk, DelNode;
    DelUnchanged(s.g[p].value, act, m, s.g[p].level);
  }

  /** The child kept enough items. */
  lemma DelEnough<N, T>(s: State<N, T>, u: State<N, T>, p: N, m: nat, act: Act, r: Mut)
    requires p in s.g && DelChildPost(s, u, p, Descends(s.g[p].value, act), m, act, r) && r.MutDeleted?
    requires m <= |u.g[u.g[p].children[Descends(s.g[p].value, act)]].items|
    ensures DelPost(s, u, p, m, act, Handed(s.g[p].items, act, r))
  {
    hide Linked, Faithful, Frame, Flat, Sorted, DelNode, Shape, Short, Unfixed;
    var v, i := s.g[p].value, Descends(s.g[p].value, act);
    ReadyFields(s, p, m);
    DelUnfixed(v, act, m, s.g[p].level);
    ChildItems(u, p, i);
  }

  lemma ChildItems<N, T>(s: State<N, T>, p: N, i: nat)
    requires OwnKid(s, p, i)
    ensures p in s.g && i < |s.g[p].children| && s.g[p].children[i] in s.g
    ensures s.g[s.g[p].children[i]].level + 1 == s.g[p].level
    ensures s.g[p].value.Branch? && i < |s.g[p].value.children|
    ensures s.g[p].value.children[i].items == s.g[s.g[p].children[i]].items
    ensures s.g[p].value.items == s.g[p].items && |s.g[p].value.children| == |s.g[p].items| + 1
    ensures s.g[p].value.children[i] == s.g[s.g[p].children[i]].value
  {
  }

  /** Before rebalancing: the pair is unshared and has no child in common. */
  lemma DelPair<N, T>(s: State<N, T>, u: State<N, T>, p: N, m: nat, act: Act, r: Mut)
    requires p in s.g && DelChildPost(s, u, p, Descends(s.g[p].value, act), m, act, r) && r.MutDeleted?
    ensures var i := Descends(s.g[p].value, act);
      OwnPair(u, p, if i == |u.g[p].items| then i - 1 else i)
  {
    hide Linked, Faithful, Frame, Flat, Sorted, DelNode, Shape, Unfixed;
    var v, h, i := s.g[p].value, s.g[p].level, Descends(s.g[p].value, act);
    DelUnfixed(v, act, m, h);
    var j := if i == |u.g[p].items| then i - 1 else i;
    var l := u.g[p].children[j];
    ChildItems(u, p, j);
    forall k | k in u.g[l].children ensures k in u.g && Flat(u.g[k].value) != [] {
      var x :| 0 <= x < |u.g[l].children| && u.g[l].children[x] == k;
      assert ValueOk(u, l) && DownOk(u, l) && KidOk(u, l, u.g[l].children[x]);
      assert u.g[l].value.children[x] == u.g[k].value;
      ShortGrandchild(u.g[p].value, h, m, i, j, x);
    }
    PairDistinct(u, p, j);
  }

  /** Rebalancing finishes the delete. */
  lemma DelRebalanced<N, T>(s: State<N, T>, u: State<N, T>, w: State<N, T>, p: N, m: nat, act: Act, r: Mut)
    requires p in s.g && DelChildPost(s, u, p, Descends(s.g[p].value, act), m, act, r) && r.MutDeleted?
    requires |u.g[u.g[p].children[Descends(s.g[p].value, act)]].items| < m
    requires RebalancePost(u, w, p, Descends(s.g[p].value, act), m)
    ensures DelPost(s, w, p, m, act, Handed(s.g[p].items, act, r))
  {
    hide Linked, Faithful, Frame, Flat, Sorted, DelNode, Shape, Short, Unfixed, Rebalance;
    var v, i := s.g[p].value, Descends(s.g[p].value, act);
    ReadyFields(s, p, m);
    DelUnfixed(v, act, m, s.g[p].level);
    ChildItems(u, p, i);
    KeptTrans(s, u, w, p);
  }
}
