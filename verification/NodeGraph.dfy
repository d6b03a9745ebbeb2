// The sharing structure of B-tree nodes, as a value.
//
// Nodes are shared between trees and carry a reference count. A State says of every
// live node what its fields hold, who refers to it and what value it stands for. The
// methods of BTree.dfy change objects in place; each of their steps is one of the
// functions below, and the lemmas say that the step keeps the counts exact, keeps the
// values faithful and leaves everything that other trees can see alone.

module NodeGraph {
  import opened Bytes
  import opened Entries
  import opened BTreeValue

  /** Whoever holds a reference to a node. */
  datatype Owner<N, T> = Parent(node: N) | Holder(tree: T)

  datatype Rec<N(==), T(==)> = Rec(rc: int, leaf: bool, level: nat, items: seq<Entry>, children: seq<N>,
                                   owners: set<Owner<N, T>>, value: Tree)

  datatype State<N(==), T(==)> = State(g: map<N, Rec<N, T>>, roots: map<T, N>)

  // ---------------------------------------------------------------- the invariant

  ghost predicate KidOk<N, T>(s: State<N, T>, n: N, c: N)
    requires n in s.g
  {
    c in s.g && Parent(n) in s.g[c].owners && s.g[c].level + 1 == s.g[n].level
  }

  /** The links of node n downwards. */
  ghost predicate DownOk<N, T>(s: State<N, T>, n: N)
    requires n in s.g
  {
    var r := s.g[n];
    && 1 <= r.level && (r.leaf <==> r.level == 1)
    && (r.leaf ==> r.children == [])
    && (!r.leaf ==> |r.children| == |r.items| + 1)
    && (forall i :: 0 <= i < |r.children| ==> KidOk(s, n, r.children[i]))
    && (forall i, j :: 0 <= i < j < |r.children| ==> r.children[i] != r.children[j])
  }

  ghost predicate Owns<N, T>(s: State<N, T>, o: Owner<N, T>, n: N) {
    match o
    case Parent(p) => p in s.g && n in s.g[p].children
    case Holder(b) => b in s.roots && s.roots[b] == n
  }

  /** The reference count of node n is the number of its owners minus one. */
  ghost predicate UpOk<N, T>(s: State<N, T>, n: N)
    requires n in s.g
  {
    && s.g[n].rc + 1 == |s.g[n].owners|
    && forall o :: o in s.g[n].owners ==> Owns(s, o, n)
  }

  ghost predicate RootsOk<N, T>(s: State<N, T>) {
    forall b :: b in s.roots ==> s.roots[b] in s.g && Holder(b) in s.g[s.roots[b]].owners
  }

  ghost predicate Downs<N, T>(s: State<N, T>) {
    forall n :: n in s.g ==> DownOk(s, n)
  }

  ghost predicate Ups<N, T>(s: State<N, T>) {
    forall n :: n in s.g ==> UpOk(s, n)
  }

  ghost predicate Linked<N, T>(s: State<N, T>) {
    RootsOk(s) && Downs(s) && Ups(s)
  }

  // ---------------------------------------------------------------- values

  ghost predicate KidsKnown<N, T>(s: State<N, T>, cs: seq<N>) {
    forall i :: 0 <= i < |cs| ==> cs[i] in s.g
  }

  ghost function Values<N, T>(s: State<N, T>, cs: seq<N>): (v: seq<Tree>)
    requires KidsKnown(s, cs)
    ensures |v| == |cs| && forall i :: 0 <= i < |cs| ==> v[i] == s.g[cs[i]].value
  {
    seq(|cs|, i requires 0 <= i < |cs| => s.g[cs[i]].value)
  }

  /** The value that node n's fields spell out. */
  ghost predicate ValueOk<N, T>(s: State<N, T>, n: N)
    requires n in s.g
  {
    var r := s.g[n];
    KidsKnown(s, r.children) && r.value == if r.leaf then Leaf(r.items) else Branch(r.items, Values(s, r.children))
  }

  /** Every node up to level l stands for the value its fields spell out. */
  ghost predicate Faithful<N, T>(s: State<N, T>, l: nat) {
    forall n :: n in s.g && s.g[n].level <= l ==> ValueOk(s, n)
  }

  /** A step that leaves node n and the values of its children alone leaves its value right. */
  lemma ValueKept<N, T>(s: State<N, T>, u: State<N, T>, n: N)
    requires n in s.g && ValueOk(s, n) && n in u.g
    requires u.g[n].leaf == s.g[n].leaf && u.g[n].items == s.g[n].items && u.g[n].value == s.g[n].value
    requires |u.g[n].children| == |s.g[n].children| && KidsKnown(u, u.g[n].children)
    requires forall i :: 0 <= i < |s.g[n].children| ==> u.g[u.g[n].children[i]].value == s.g[s.g[n].children[i]].value
    ensures ValueOk(u, n)
  {
    assert Values(u, u.g[n].children) == Values(s, s.g[n].children);
  }

  // ---------------------------------------------------------------- frames

  /** What a step at node p may not disturb: everything else at its level and above, and the value of every root. */
  ghost predicate Frame<N, T>(s: State<N, T>, u: State<N, T>, p: N)
    requires p in s.g
  {
    && u.roots == s.roots
    && p in u.g && u.g[p].rc == s.g[p].rc && u.g[p].owners == s.g[p].owners
    && u.g[p].level == s.g[p].level && u.g[p].leaf == s.g[p].leaf
    && (forall n :: n in s.g && n != p && s.g[p].level <= s.g[n].level ==> n in u.g && u.g[n] == s.g[n])
    && (forall n :: n in u.g && n != p && s.g[p].level <= u.g[n].level ==> n in s.g && u.g[n] == s.g[n])
    && (forall b :: b in s.roots && s.roots[b] != p && s.roots[b] in s.g ==>
        s.roots[b] in u.g && u.g[s.roots[b]].value == s.g[s.roots[b]].value
        && u.g[s.roots[b]].level == s.g[s.roots[b]].level)
  }

  lemma FrameTrans<N, T>(s: State<N, T>, u: State<N, T>, w: State<N, T>, p: N)
    requires p in s.g && Frame(s, u, p) && Frame(u, w, p)
    ensures Frame(s, w, p)
  {
  }

  /** No node is shared. */
  ghost predicate Alone<N, T>(s: State<N, T>) {
    forall n :: n in s.g ==> s.g[n].rc == 0
  }

  /** A step does not start sharing. */
  ghost predicate Quiet<N, T>(s: State<N, T>, u: State<N, T>) {
    Alone(s) ==> Alone(u)
  }

  ghost predicate SameFields<N, T>(a: Rec<N, T>, b: Rec<N, T>) {
    a.leaf == b.leaf && a.level == b.level && a.items == b.items && a.children == b.children && a.value == b.value
  }

  /** Node c is referred to by o alone. */
  ghost predicate Sole<N, T>(s: State<N, T>, c: N, o: Owner<N, T>) {
    c in s.g && s.g[c].owners == {o}
  }

  lemma SoleOwner<N, T>(s: State<N, T>, c: N, o: Owner<N, T>)
    requires c in s.g && UpOk(s, c) && s.g[c].rc <= 0 && o in s.g[c].owners
    ensures Sole(s, c, o) && s.g[c].rc == 0
  {
    var rest := s.g[c].owners - {o};
    assert s.g[c].owners == rest + {o};
    assert |rest| == 0;
  }

  /** A step at an unshared child is a step at its parent. */
  lemma FrameUp<N, T>(s: State<N, T>, u: State<N, T>, p: N, c: N)
    requires Linked(s) && p in s.g && Sole(s, c, Parent(p)) && s.g[c].level + 1 == s.g[p].level && Frame(s, u, c)
    ensures Frame(s, u, p)
  {
    forall b | b in s.roots ensures s.roots[b] != c {
      assert Holder(b) in s.g[s.roots[b]].owners;
    }
  }

  // ---------------------------------------------------------------- copy on write

  /** Reference o (slot i of a parent, or a root) leads to c. */
  ghost predicate Refers<N, T>(s: State<N, T>, o: Owner<N, T>, i: nat, c: N) {
    match o
    case Parent(p) => p in s.g && i < |s.g[p].children| && s.g[p].children[i] == c
    case Holder(b) => b in s.roots && s.roots[b] == c
  }

  ghost function CowRec<N, T>(s: State<N, T>, o: Owner<N, T>, i: nat, c: N, d: N, n: N): Rec<N, T>
    requires c in s.g && n in s.g
  {
    var r := s.g[n];
    if n == c then r.(rc := r.rc - 1, owners := r.owners - {o})
    else if n in s.g[c].children then r.(rc := r.rc + 1, owners := r.owners + {Parent(d)})
    else if o == Parent(n) && i < |r.children| then r.(children := r.children[i := d])
    else r
  }

  /** The copy-on-write macro: reference o is redirected from c to the fresh copy d. */
  ghost function Cow<N, T>(s: State<N, T>, o: Owner<N, T>, i: nat, c: N, d: N): State<N, T>
    requires c in s.g && d !in s.g
  {
    State((map n | n in s.g :: CowRec(s, o, i, c, d, n))
          [d := Rec(0, s.g[c].leaf, s.g[c].level, s.g[c].items, s.g[c].children, {o}, s.g[c].value)],
          if o.Holder? then s.roots[o.tree := d] else s.roots)
  }

  ghost predicate CowPre<N, T>(s: State<N, T>, o: Owner<N, T>, i: nat, c: N, d: N) {
    c in s.g && d !in s.g && Refers(s, o, i, c)
  }

  lemma CowRoots<N, T>(s: State<N, T>, o: Owner<N, T>, i: nat, c: N, d: N)
    requires CowPre(s, o, i, c, d) && RootsOk(s)
    ensures RootsOk(Cow(s, o, i, c, d))
  {
  }

  /** A link that the copy does not redirect. */
  lemma CowKid<N, T>(s: State<N, T>, o: Owner<N, T>, i: nat, c: N, d: N, n: N, k: N)
    requires CowPre(s, o, i, c, d) && n in s.g && KidOk(s, n, k) && (k == c ==> o != Parent(n))
    ensures KidOk(Cow(s, o, i, c, d), n, k)
  {
  }

  lemma CowDown<N, T>(s: State<N, T>, o: Owner<N, T>, i: nat, c: N, d: N, n: N)
    requires CowPre(s, o, i, c, d) && n in s.g && DownOk(s, n) && DownOk(s, c)
    requires o.Parent? ==> DownOk(s, o.node)
    ensures DownOk(Cow(s, o, i, c, d), n)
  {
    var u := Cow(s, o, i, c, d);
    var cs := s.g[n].children;
    if o == Parent(n) {
      assert KidOk(s, n, cs[i]);
      assert u.g[n].children == cs[i := d];
      forall j | 0 <= j < |cs| && j != i ensures KidOk(u, n, cs[j]) {
        assert KidOk(s, n, cs[j]);
        CowKid(s, o, i, c, d, n, cs[j]);
      }
    } else {
      forall j | 0 <= j < |cs| ensures KidOk(u, n, cs[j]) {
        CowKid(s, o, i, c, d, n, cs[j]);
      }
    }
  }

  lemma CowDownNew<N, T>(s: State<N, T>, o: Owner<N, T>, i: nat, c: N, d: N)
    requires CowPre(s, o, i, c, d) && DownOk(s, c)
    ensures DownOk(Cow(s, o, i, c, d), d)
  {
    var u := Cow(s, o, i, c, d);
    var cs := s.g[c].children;
    forall j | 0 <= j < |cs| ensures KidOk(u, d, cs[j]) {
      assert KidOk(s, c, cs[j]);
    }
  }

  lemma CowUp<N, T>(s: State<N, T>, o: Owner<N, T>, i: nat, c: N, d: N, n: N)
    requires CowPre(s, o, i, c, d) && n in s.g && UpOk(s, n) && UpOk(s, c) && DownOk(s, c)
    requires o in s.g[c].owners && (o.Parent? ==> DownOk(s, o.node))
    ensures UpOk(Cow(s, o, i, c, d), n)
  {
    var u := Cow(s, o, i, c, d);
    forall x | x in u.g[n].owners ensures Owns(u, x, n) {
      CowOwns(s, o, i, c, d, n, x);
    }
    hide Owns, DownOk;
    CowCount(s, o, i, c, d, n);
  }

  lemma CowOwns<N, T>(s: State<N, T>, o: Owner<N, T>, i: nat, c: N, d: N, n: N, x: Owner<N, T>)
    requires CowPre(s, o, i, c, d) && n in s.g && UpOk(s, n) && DownOk(s, c) && (o.Parent? ==> DownOk(s, o.node))
    requires x in Cow(s, o, i, c, d).g[n].owners
    ensures Owns(Cow(s, o, i, c, d), x, n)
  {
    var u := Cow(s, o, i, c, d);
    if x != Parent(d) || n !in s.g[c].children {
      assert Owns(s, x, n);
      if x == o && n != c { CowOther(s, o, i, c, d, n); }
    }
  }

  lemma CowCount<N, T>(s: State<N, T>, o: Owner<N, T>, i: nat, c: N, d: N, n: N)
    requires CowPre(s, o, i, c, d) && n in s.g && UpOk(s, n) && DownOk(s, c) && o in s.g[c].owners
    ensures Cow(s, o, i, c, d).g[n].rc + 1 == |Cow(s, o, i, c, d).g[n].owners|
  {
    if n != c && n in s.g[c].children {
      assert Parent(d) in s.g[n].owners ==> Owns(s, Parent(d), n);
    }
  }

  /** A slot other than the redirected one still refers to its child. */
  lemma CowOther<N, T>(s: State<N, T>, o: Owner<N, T>, i: nat, c: N, d: N, n: N)
    requires CowPre(s, o, i, c, d) && n in s.g && n != c && Owns(s, o, n) && DownOk(s, c)
    requires o.Parent? ==> DownOk(s, o.node)
    ensures Owns(Cow(s, o, i, c, d), o, n)
  {
    var u := Cow(s, o, i, c, d);
    if o.Parent? {
      var p := o.node;
      var j :| 0 <= j < |s.g[p].children| && s.g[p].children[j] == n;
      assert KidOk(s, p, s.g[p].children[i]);
      assert forall k :: 0 <= k < |s.g[c].children| ==> KidOk(s, c, s.g[c].children[k]);
      assert p !in s.g[c].children;
      assert u.g[p].children == s.g[p].children[i := d];
      assert u.g[p].children[j] == n;
    }
  }

  /** Copy on write keeps every count exact. */
  lemma CowLinked<N, T>(s: State<N, T>, o: Owner<N, T>, i: nat, c: N, d: N)
    requires CowPre(s, o, i, c, d) && Linked(s)
    ensures Linked(Cow(s, o, i, c, d))
  {
    var u := Cow(s, o, i, c, d);
    CowRoots(s, o, i, c, d);
    assert DownOk(s, c) && UpOk(s, c);
    if o.Parent? {
      assert DownOk(s, o.node);
      assert KidOk(s, o.node, s.g[o.node].children[i]);
    }
    forall n | n in u.g ensures DownOk(u, n) && UpOk(u, n) {
      if n == d {
        CowDownNew(s, o, i, c, d);
        assert Owns(u, o, d) by { if o.Parent? { assert u.g[o.node].children[i] == d; } }
      } else {
        assert DownOk(s, n) && UpOk(s, n);
        CowDown(s, o, i, c, d, n);
        CowUp(s, o, i, c, d, n);
      }
    }
  }

  lemma CowValue<N, T>(s: State<N, T>, o: Owner<N, T>, i: nat, c: N, d: N, n: N)
    requires CowPre(s, o, i, c, d) && n in s.g && ValueOk(s, n)
    ensures ValueOk(Cow(s, o, i, c, d), n)
    ensures n == c ==> ValueOk(Cow(s, o, i, c, d), d)
  {
    var u := Cow(s, o, i, c, d);
    var r := s.g[n];
    assert KidsKnown(s, r.children);
    assert forall k :: 0 <= k < |u.g[n].children| ==>
      u.g[n].children[k] == r.children[k] || (r.children[k] == c && u.g[n].children[k] == d);
    ValueKept(s, u, n);
    if n == c { assert Values(u, u.g[d].children) == Values(s, r.children); }
  }

  /** Copy on write changes no value. */
  lemma CowFaithful<N, T>(s: State<N, T>, o: Owner<N, T>, i: nat, c: N, d: N, l: nat)
    requires CowPre(s, o, i, c, d) && Faithful(s, l)
    ensures Faithful(Cow(s, o, i, c, d), l)
  {
    var u := Cow(s, o, i, c, d);
    forall n | n in u.g && u.g[n].level <= l ensures ValueOk(u, n) {
      CowValue(s, o, i, c, d, if n == d then c else n);
    }
  }

  lemma CowFrame<N, T>(s: State<N, T>, p: N, i: nat, c: N, d: N)
    requires CowPre(s, Parent(p), i, c, d) && DownOk(s, p) && DownOk(s, c)
    ensures Frame(s, Cow(s, Parent(p), i, c, d), p)
    ensures Cow(s, Parent(p), i, c, d).g[p] == s.g[p].(children := s.g[p].children[i := d])
  {
    assert KidOk(s, p, s.g[p].children[i]);
    forall n | n in s.g && n in s.g[c].children ensures s.g[n].level + 1 == s.g[c].level {
      var k :| 0 <= k < |s.g[c].children| && s.g[c].children[k] == n;
      assert KidOk(s, c, s.g[c].children[k]);
    }
  }

  /** What copy on write of slot i of p achieves: an unshared child with the same fields, and nothing else to see. */
  ghost predicate CowStep<N, T>(s: State<N, T>, u: State<N, T>, p: N, i: nat) {
    && p in s.g && p in u.g && i < |s.g[p].children| && |u.g[p].children| == |s.g[p].children|
    && s.g[p].children[i] in s.g && u.g[p].children[i] in u.g
    && var c, k := s.g[p].children[i], u.g[p].children[i];
       && Linked(u) && Frame(s, u, p) && Quiet(s, u)
       && u.g[p] == s.g[p].(children := s.g[p].children[i := k])
       && Sole(u, k, Parent(p)) && u.g[k].rc == 0 && SameFields(s.g[c], u.g[k])
       && (forall n :: n in s.g ==> n in u.g && u.g[n].value == s.g[n].value)
       && (forall n :: n in s.g && n != c && s.g[n].level + 1 == s.g[p].level ==> u.g[n] == s.g[n])
  }

  /** The nodes around slot i of p are different objects. */
  lemma CowKids<N, T>(s: State<N, T>, p: N, i: nat)
    requires Linked(s) && p in s.g && i < |s.g[p].children|
    ensures var c := s.g[p].children[i];
      && c in s.g && c != p && Distinct(s.g[c].children)
      && forall k :: k in s.g[c].children ==> k in s.g && k != c && k != p
  {
    assert DownOk(s, p);
    var c := s.g[p].children[i];
    assert KidOk(s, p, c) && DownOk(s, c);
    forall k | k in s.g[c].children ensures k in s.g && k != c && k != p {
      var j :| 0 <= j < |s.g[c].children| && s.g[c].children[j] == k;
      assert KidOk(s, c, s.g[c].children[j]);
    }
  }

  lemma CowKept<N, T>(s: State<N, T>, p: N, i: nat, c: N, d: N)
    requires CowPre(s, Parent(p), i, c, d) && DownOk(s, p) && DownOk(s, c)
    ensures var u := Cow(s, Parent(p), i, c, d);
      && (forall n :: n in s.g ==> u.g[n].value == s.g[n].value)
      && (forall n :: n in s.g && n != c && s.g[n].level + 1 == s.g[p].level ==> u.g[n] == s.g[n])
  {
    assert KidOk(s, p, s.g[p].children[i]);
    forall n | n in s.g && n in s.g[c].children ensures s.g[n].level + 1 == s.g[c].level {
      var k :| 0 <= k < |s.g[c].children| && s.g[c].children[k] == n;
      assert KidOk(s, c, s.g[c].children[k]);
    }
  }

  lemma CowStepOk<N, T>(s: State<N, T>, p: N, i: nat, c: N, d: N)
    requires CowPre(s, Parent(p), i, c, d) && Linked(s) && s.g[c].rc > 0
    ensures CowStep(s, Cow(s, Parent(p), i, c, d), p, i)
    ensures forall l: nat :: Faithful(s, l) ==> Faithful(Cow(s, Parent(p), i, c, d), l)
  {
    var u := Cow(s, Parent(p), i, c, d);
    forall l: nat | Faithful(s, l) ensures Faithful(u, l) { CowFaithful(s, Parent(p), i, c, d, l); }
    assert DownOk(s, p) && DownOk(s, c);
    CowFrame(s, p, i, c, d);
    CowKept(s, p, i, c, d);
    assert Linked(u) by { CowLinked(s, Parent(p), i, c, d); }
  }

  /** An unshared child needs no copy. */
  lemma CowStepIdle<N, T>(s: State<N, T>, p: N, i: nat)
    requires Linked(s) && p in s.g && i < |s.g[p].children| && s.g[p].children[i] in s.g
    requires s.g[s.g[p].children[i]].rc <= 0
    ensures CowStep(s, s, p, i)
  {
    assert DownOk(s, p);
    assert KidOk(s, p, s.g[p].children[i]);
    assert UpOk(s, s.g[p].children[i]);
    SoleOwner(s, s.g[p].children[i], Parent(p));
  }

  // ---------------------------------------------------------------- items of one node

  ghost predicate FaithfulBut<N, T>(s: State<N, T>, l: nat, p: N) {
    forall n :: n in s.g && n != p && s.g[n].level <= l ==> ValueOk(s, n)
  }

  /** The items and the value of node n change. */
  ghost function SetItems<N, T>(s: State<N, T>, n: N, items: seq<Entry>, v: Tree): State<N, T>
    requires n in s.g
  {
    s.(g := s.g[n := s.g[n].(items := items, value := v)])
  }

  lemma SetItemsLinked<N, T>(s: State<N, T>, n: N, items: seq<Entry>, v: Tree)
    requires n in s.g && Linked(s)
    requires s.g[n].leaf || |items| == |s.g[n].items|
    ensures Linked(SetItems(s, n, items, v)) && Frame(s, SetItems(s, n, items, v), n)
  {
    var u := SetItems(s, n, items, v);
    forall m | m in u.g ensures DownOk(u, m) && UpOk(u, m) {
      assert DownOk(s, m) && UpOk(s, m);
      forall j | 0 <= j < |u.g[m].children| ensures KidOk(u, m, u.g[m].children[j]) {
        assert KidOk(s, m, s.g[m].children[j]);
      }
      forall o | o in u.g[m].owners ensures Owns(u, o, m) { assert Owns(s, o, m); }
    }
  }

  lemma SetItemsFaithful<N, T>(s: State<N, T>, n: N, items: seq<Entry>, v: Tree)
    requires n in s.g && Downs(s) && FaithfulBut(s, s.g[n].level, n) && KidsKnown(s, s.g[n].children)
    requires v == if s.g[n].leaf then Leaf(items) else Branch(items, Values(s, s.g[n].children))
    ensures Faithful(SetItems(s, n, items, v), s.g[n].level)
  {
    var u := SetItems(s, n, items, v);
    forall m | m in u.g && u.g[m].level <= s.g[n].level ensures ValueOk(u, m) {
      var r := s.g[m];
      assert DownOk(s, m);
      assert forall k :: 0 <= k < |r.children| ==> KidOk(s, m, r.children[k]);
      if m == n {
        assert Values(u, r.children) == Values(s, r.children);
      } else {
        ValueKept(s, u, m);
      }
    }
  }

  // ---------------------------------------------------------------- two siblings under one parent

  /**
   * Splitting, merging and rotating all deal the items and children of siblings l and r
   * anew under their parent p: r may be fresh (split) or may be dropped (merge).
   */
  datatype Deal<N> = Deal(p: N, pItems: seq<Entry>, pKids: seq<N>,
                          l: N, lItems: seq<Entry>, lKids: seq<N>,
                          r: N, keep: bool, rItems: seq<Entry>, rKids: seq<N>)

  ghost predicate Distinct<N>(cs: seq<N>) {
    forall i, j :: 0 <= i < j < |cs| ==> cs[i] != cs[j]
  }

  ghost function OldKids<N, T>(s: State<N, T>, d: Deal<N>): seq<N>
    requires d.l in s.g
  {
    s.g[d.l].children + if d.r in s.g then s.g[d.r].children else []
  }

  /** The parent, and who sits under it. */
  ghost predicate DealTop<N, T>(s: State<N, T>, d: Deal<N>) {
    && d.p in s.g && d.l in s.g && d.l != d.r && !s.g[d.p].leaf && DownOk(s, d.p)
    && d.l in s.g[d.p].children && d.l != d.p && d.r != d.p
    && s.g[d.l].level + 1 == s.g[d.p].level && Sole(s, d.l, Parent(d.p))
    && |d.pKids| == |d.pItems| + 1 && Distinct(d.pKids)
    && (forall k :: k in d.pKids ==> k == d.r || k in s.g[d.p].children)
    && (forall k :: k in s.g[d.p].children && k != d.r ==> k in d.pKids)
    && (d.r in d.pKids <==> d.keep)
    && (d.r in s.g ==> d.r in s.g[d.p].children && s.g[d.r].level + 1 == s.g[d.p].level
                       && Sole(s, d.r, Parent(d.p)) && s.g[d.r].rc == 0)
    && (d.r !in s.g ==> d.keep)
  }

  /** The siblings, and how their children are dealt. */
  ghost predicate DealBottom<N, T>(s: State<N, T>, d: Deal<N>)
    requires d.l in s.g
  {
    && DownOk(s, d.l) && (d.r in s.g ==> DownOk(s, d.r))
    && d.lKids + d.rKids == OldKids(s, d) && Distinct(OldKids(s, d))
    && (!d.keep ==> d.rKids == [])
    && (!s.g[d.l].leaf ==> |d.lKids| == |d.lItems| + 1 && (d.keep ==> |d.rKids| == |d.rItems| + 1))
  }

  ghost predicate DealPre<N, T>(s: State<N, T>, d: Deal<N>) {
    DealTop(s, d) && DealBottom(s, d)
  }

  ghost function NodeValue<N, T>(s: State<N, T>, leaf: bool, items: seq<Entry>, cs: seq<N>): Tree
    requires KidsKnown(s, cs)
  {
    if leaf then Leaf(items) else Branch(items, Values(s, cs))
  }

  lemma DealKnown<N, T>(s: State<N, T>, d: Deal<N>)
    requires DealPre(s, d)
    ensures KidsKnown(s, d.lKids) && KidsKnown(s, d.rKids)
    ensures forall i :: 0 <= i < |d.pKids| && d.pKids[i] != d.r ==> d.pKids[i] in s.g
    ensures forall k :: k in d.lKids || k in d.rKids ==>
      k in s.g && s.g[k].level + 1 == s.g[d.l].level && k != d.p && k != d.l && k != d.r
    ensures forall k :: k in d.lKids ==> k !in d.rKids
    ensures forall k :: k in d.lKids || k in d.rKids ==>
      if k in s.g[d.l].children then Parent(d.l) in s.g[k].owners
      else d.r in s.g && k in s.g[d.r].children && Parent(d.r) in s.g[k].owners
  {
    var ks := OldKids(s, d);
    forall i | 0 <= i < |ks| ensures ks[i] in s.g && s.g[ks[i]].level + 1 == s.g[d.l].level {
      if i < |s.g[d.l].children| {
        assert KidOk(s, d.l, s.g[d.l].children[i]);
      } else {
        assert KidOk(s, d.r, s.g[d.r].children[i - |s.g[d.l].children|]);
      }
    }
    assert forall i :: 0 <= i < |d.lKids| ==> ks[i] == d.lKids[i];
    assert forall i :: 0 <= i < |d.rKids| ==> ks[|d.lKids| + i] == d.rKids[i];
    forall k | k in d.lKids || k in d.rKids ensures k in ks {}
    forall k | k in s.g[d.l].children ensures Parent(d.l) in s.g[k].owners {
      var i :| 0 <= i < |s.g[d.l].children| && s.g[d.l].children[i] == k;
      assert KidOk(s, d.l, k);
    }
    if d.r in s.g {
      forall k | k in s.g[d.r].children ensures Parent(d.r) in s.g[k].owners {
        var i :| 0 <= i < |s.g[d.r].children| && s.g[d.r].children[i] == k;
        assert KidOk(s, d.r, k);
      }
    }
    forall i | 0 <= i < |d.pKids| && d.pKids[i] != d.r ensures d.pKids[i] in s.g {
      assert d.pKids[i] in s.g[d.p].children;
      var j :| 0 <= j < |s.g[d.p].children| && s.g[d.p].children[j] == d.pKids[i];
      assert KidOk(s, d.p, s.g[d.p].children[j]);
    }
  }

  ghost function DealLeft<N, T>(s: State<N, T>, d: Deal<N>): Tree
    requires d.l in s.g && KidsKnown(s, d.lKids)
  {
    NodeValue(s, s.g[d.l].leaf, d.lItems, d.lKids)
  }

  ghost function DealRight<N, T>(s: State<N, T>, d: Deal<N>): Tree
    requires d.l in s.g && KidsKnown(s, d.rKids)
  {
    NodeValue(s, s.g[d.l].leaf, d.rItems, d.rKids)
  }

  ghost function DealKidValue<N, T>(s: State<N, T>, d: Deal<N>, k: N): Tree
    requires DealPre(s, d) && (k == d.r || k in s.g)
  {
    DealKnown(s, d);
    if k == d.l then DealLeft(s, d) else if k == d.r then DealRight(s, d) else s.g[k].value
  }

  ghost function DealParent<N, T>(s: State<N, T>, d: Deal<N>): Tree
    requires DealPre(s, d)
  {
    DealKnown(s, d);
    Branch(d.pItems, seq(|d.pKids|, i requires 0 <= i < |d.pKids| => DealKidValue(s, d, d.pKids[i])))
  }

  ghost function DealRec<N, T>(s: State<N, T>, d: Deal<N>, n: N): Rec<N, T>
    requires DealPre(s, d) && (n in s.g || n == d.r)
  {
    DealKnown(s, d);
    if n == d.p then s.g[n].(items := d.pItems, children := d.pKids, value := DealParent(s, d))
    else if n == d.l then s.g[n].(items := d.lItems, children := d.lKids, value := DealLeft(s, d))
    else if n == d.r then
      Rec(0, s.g[d.l].leaf, s.g[d.l].level, d.rItems, d.rKids, {Parent(d.p)}, DealRight(s, d))
    else if n in d.lKids then s.g[n].(owners := s.g[n].owners - {Parent(d.r)} + {Parent(d.l)})
    else if n in d.rKids then s.g[n].(owners := s.g[n].owners - {Parent(d.l)} + {Parent(d.r)})
    else s.g[n]
  }

  ghost function Redeal<N, T>(s: State<N, T>, d: Deal<N>): State<N, T>
    requires DealPre(s, d)
  {
    s.(g := map n | n in s.g.Keys + {d.r} && (n == d.r ==> d.keep) :: DealRec(s, d, n))
  }

  /** The real fields after a deal. */
  lemma DealFields<N, T>(s: State<N, T>, d: Deal<N>)
    requires DealPre(s, d)
    ensures var u := Redeal(s, d);
      && d.p in u.g && d.l in u.g && (d.r in u.g <==> d.keep)
      && (forall n :: n in u.g && n != d.r ==> n in s.g)
      && (forall n :: n in s.g && n != d.r ==> n in u.g)
      && (forall n :: n in u.g && n != d.p && n != d.l && n != d.r ==>
          u.g[n].rc == s.g[n].rc && u.g[n].leaf == s.g[n].leaf
          && u.g[n].items == s.g[n].items && u.g[n].children == s.g[n].children)
      && u.g[d.p] == s.g[d.p].(items := d.pItems, children := d.pKids, value := DealParent(s, d))
      && u.g[d.l].rc == s.g[d.l].rc && u.g[d.l].leaf == s.g[d.l].leaf
      && u.g[d.l].items == d.lItems && u.g[d.l].children == d.lKids
      && (d.keep ==> u.g[d.r].rc == 0 && u.g[d.r].leaf == s.g[d.l].leaf
                     && u.g[d.r].items == d.rItems && u.g[d.r].children == d.rKids)
  {
    DealKnown(s, d);
  }

  /** A node that is not one of the three keeps its links. */
  lemma DealDownOther<N, T>(s: State<N, T>, d: Deal<N>, n: N)
    requires DealPre(s, d) && n in s.g && n != d.p && n != d.l && n != d.r && DownOk(s, n)
    ensures DownOk(Redeal(s, d), n)
  {
    var u := Redeal(s, d);
    DealKnown(s, d);
    var cs := s.g[n].children;
    forall i | 0 <= i < |cs| ensures KidOk(u, n, cs[i]) {
      assert KidOk(s, n, cs[i]);
    }
  }

  lemma DealDownParent<N, T>(s: State<N, T>, d: Deal<N>)
    requires DealPre(s, d)
    ensures DownOk(Redeal(s, d), d.p)
  {
    var u := Redeal(s, d);
    DealKnown(s, d);
    forall i | 0 <= i < |d.pKids| ensures KidOk(u, d.p, d.pKids[i]) {
      var k := d.pKids[i];
      assert k in d.pKids;
      if k != d.r {
        var j :| 0 <= j < |s.g[d.p].children| && s.g[d.p].children[j] == k;
        assert KidOk(s, d.p, s.g[d.p].children[j]);
      }
    }
  }

  lemma DealDownPair<N, T>(s: State<N, T>, d: Deal<N>)
    requires DealPre(s, d)
    ensures DownOk(Redeal(s, d), d.l) && (d.keep ==> DownOk(Redeal(s, d), d.r))
  {
    var u := Redeal(s, d);
    DealKnown(s, d);
    var ks := OldKids(s, d);
    assert forall i :: 0 <= i < |d.lKids| ==> ks[i] == d.lKids[i];
    assert forall i :: 0 <= i < |d.rKids| ==> ks[|d.lKids| + i] == d.rKids[i];
    if s.g[d.l].leaf { assert ks == []; }
    forall i | 0 <= i < |d.lKids| ensures KidOk(u, d.l, d.lKids[i]) { assert d.lKids[i] in d.lKids; }
    if d.keep {
      forall i | 0 <= i < |d.rKids| ensures KidOk(u, d.r, d.rKids[i]) { assert d.rKids[i] in d.rKids; }
    }
  }

  /** Owners of node n other than the siblings still refer to it. */
  lemma DealOwner<N, T>(s: State<N, T>, d: Deal<N>, n: N, o: Owner<N, T>)
    requires DealPre(s, d) && n in s.g && n != d.r && Owns(s, o, n) && o != Parent(d.l) && o != Parent(d.r)
    ensures Owns(Redeal(s, d), o, n)
  {
    DealKnown(s, d);
  }

  lemma DealSame<N, T>(s: State<N, T>, d: Deal<N>, n: N)
    requires DealPre(s, d)
    ensures n in OldKids(s, d) <==> n in d.lKids || n in d.rKids
    ensures n in OldKids(s, d) <==> n in s.g[d.l].children || (d.r in s.g && n in s.g[d.r].children)
  {
  }

  lemma DealDisjoint<N, T>(s: State<N, T>, d: Deal<N>)
    requires DealPre(s, d) && d.r in s.g
    ensures forall k :: k in s.g[d.l].children ==> k !in s.g[d.r].children
  {
    var ks, a, b := OldKids(s, d), s.g[d.l].children, s.g[d.r].children;
    forall i, j | 0 <= i < |a| && 0 <= j < |b| ensures a[i] != b[j] {
      assert ks[i] == a[i];
      assert ks[|a| + j] == b[j];
    }
  }

  /** A dealt child has exactly one of the siblings as owner, before and after. */
  lemma DealOnce<N, T>(s: State<N, T>, d: Deal<N>, n: N)
    requires DealPre(s, d) && n in OldKids(s, d) && n in s.g && UpOk(s, n)
    ensures Parent(d.l) in s.g[n].owners <==> Parent(d.r) !in s.g[n].owners
  {
    DealKnown(s, d);
    DealSame(s, d, n);
    if d.r in s.g { DealDisjoint(s, d); }
    assert Parent(d.l) in s.g[n].owners ==> Owns(s, Parent(d.l), n);
    assert Parent(d.r) in s.g[n].owners ==> Owns(s, Parent(d.r), n);
  }

  lemma DealCount<N, T>(s: State<N, T>, d: Deal<N>, n: N)
    requires DealPre(s, d) && n in s.g && n != d.r && UpOk(s, n)
    ensures |Redeal(s, d).g[n].owners| == |s.g[n].owners| && Redeal(s, d).g[n].rc == s.g[n].rc
  {
    DealKnown(s, d);
    DealSame(s, d, n);
    if n in OldKids(s, d) {
      DealOnce(s, d, n);
      SwapCount(s.g[n].owners, Parent(d.l), Parent(d.r));
    }
  }

  lemma SwapCount<O>(os: set<O>, a: O, b: O)
    requires a in os <==> b !in os
    ensures |os - {b} + {a}| == |os| && |os - {a} + {b}| == |os|
  {
    if a in os {
      assert os - {b} + {a} == os;
      assert |os - {a}| == |os| - 1;
    } else {
      assert os - {a} + {b} == os;
      assert |os - {b}| == |os| - 1;
    }
  }

  lemma DealUp<N, T>(s: State<N, T>, d: Deal<N>, n: N)
    requires DealPre(s, d) && n in s.g && n != d.r && UpOk(s, n)
    ensures UpOk(Redeal(s, d), n)
  {
    var u := Redeal(s, d);
    DealKnown(s, d);
    DealSame(s, d, n);
    DealCount(s, d, n);
    forall o | o in u.g[n].owners ensures Owns(u, o, n) {
      if o in s.g[n].owners { assert Owns(s, o, n); }
      if o != Parent(d.l) && o != Parent(d.r) { DealOwner(s, d, n, o); }
    }
  }

  lemma DealRoots<N, T>(s: State<N, T>, d: Deal<N>)
    requires DealPre(s, d) && Linked(s)
    ensures RootsOk(Redeal(s, d))
  {
    DealKnown(s, d);
  }

  lemma DealLinked<N, T>(s: State<N, T>, d: Deal<N>)
    requires DealPre(s, d) && Linked(s)
    ensures Linked(Redeal(s, d))
  {
    var u := Redeal(s, d);
    DealKnown(s, d);
    DealRoots(s, d);
    hide RootsOk, DownOk, UpOk;
    forall n | n in u.g ensures DownOk(u, n) && UpOk(u, n) {
      if n == d.r {
        DealDownPair(s, d);
      } else {
        assert DownOk(s, n) && UpOk(s, n);
        DealUp(s, d, n);
        if n == d.p { DealDownParent(s, d); }
        else if n == d.l { DealDownPair(s, d); }
        else { DealDownOther(s, d, n); }
      }
    }
  }

  lemma DealFrame<N, T>(s: State<N, T>, d: Deal<N>)
    requires DealPre(s, d) && RootsOk(s)
    ensures RootsOk(Redeal(s, d)) && Frame(s, Redeal(s, d), d.p)
  {
    hide DownOk, DealParent, DealLeft, DealRight;
    DealKnown(s, d);
    forall b | b in s.roots ensures s.roots[b] != d.l && s.roots[b] != d.r {
      assert Holder(b) in s.g[s.roots[b]].owners;
    }
  }

  lemma DealFaithful<N, T>(s: State<N, T>, d: Deal<N>)
    requires DealPre(s, d) && Linked(s) && Faithful(s, s.g[d.p].level)
    ensures Faithful(Redeal(s, d), s.g[d.p].level)
  {
    var u := Redeal(s, d);
    DealKnown(s, d);
    forall n | n in u.g && u.g[n].level <= s.g[d.p].level ensures ValueOk(u, n) {
      if n == d.p {
        DealValueParent(s, d);
      } else if n == d.l || n == d.r {
        DealValuePair(s, d);
      } else {
        DealValueOther(s, d, n);
      }
    }
  }

  lemma DealValueParent<N, T>(s: State<N, T>, d: Deal<N>)
    requires DealPre(s, d)
    ensures ValueOk(Redeal(s, d), d.p)
  {
    var u := Redeal(s, d);
    DealKnown(s, d);
    forall i | 0 <= i < |d.pKids| ensures d.pKids[i] in u.g && u.g[d.pKids[i]].value == DealKidValue(s, d, d.pKids[i]) {
      assert d.pKids[i] in d.pKids;
    }
    assert Values(u, d.pKids) == DealParent(s, d).children;
  }

  lemma DealValuePair<N, T>(s: State<N, T>, d: Deal<N>)
    requires DealPre(s, d)
    ensures ValueOk(Redeal(s, d), d.l) && (d.keep ==> ValueOk(Redeal(s, d), d.r))
  {
    var u := Redeal(s, d);
    DealKnown(s, d);
    forall i | 0 <= i < |d.lKids| ensures d.lKids[i] in u.g && u.g[d.lKids[i]].value == s.g[d.lKids[i]].value {
      assert d.lKids[i] in d.lKids;
    }
    forall i | 0 <= i < |d.rKids| ensures d.rKids[i] in u.g && u.g[d.rKids[i]].value == s.g[d.rKids[i]].value {
      assert d.rKids[i] in d.rKids;
    }
    assert Values(u, d.lKids) == Values(s, d.lKids) && Values(u, d.rKids) == Values(s, d.rKids);
  }

  lemma DealValueOther<N, T>(s: State<N, T>, d: Deal<N>, n: N)
    requires DealPre(s, d) && Linked(s) && n in s.g && n != d.p && n != d.l && n != d.r && ValueOk(s, n)
    requires s.g[n].level <= s.g[d.p].level
    ensures ValueOk(Redeal(s, d), n)
  {
    var u := Redeal(s, d);
    DealKnown(s, d);
    assert DownOk(s, n);
    var cs := s.g[n].children;
    forall i | 0 <= i < |cs| ensures cs[i] in u.g && u.g[cs[i]].value == s.g[cs[i]].value {
      assert KidOk(s, n, cs[i]);
    }
    ValueKept(s, u, n);
  }

  // ---------------------------------------------------------------- roots

  /** A step for tree b: no other tree's root moves or changes value. */
  ghost predicate Others<N, T>(s: State<N, T>, u: State<N, T>, b: T) {
    && (forall x :: x in s.roots && x != b ==>
        x in u.roots && u.roots[x] == s.roots[x] && s.roots[x] in s.g && s.roots[x] in u.g
        && u.g[s.roots[x]].value == s.g[s.roots[x]].value && u.g[s.roots[x]].level == s.g[s.roots[x]].level)
    && (forall x :: x in u.roots && x != b ==> x in s.roots)
  }

  lemma OthersTrans<N, T>(s: State<N, T>, u: State<N, T>, w: State<N, T>, b: T)
    requires Others(s, u, b) && Others(u, w, b)
    ensures Others(s, w, b)
  {
  }

  /** A step at the unshared root of b is a step for b. */
  lemma FrameOthers<N, T>(s: State<N, T>, u: State<N, T>, b: T)
    requires RootsOk(s) && b in s.roots && Sole(s, s.roots[b], Holder(b)) && Frame(s, u, s.roots[b])
    ensures Others(s, u, b)
  {
    forall x | x in s.roots && x != b ensures s.roots[x] != s.roots[b] {
      assert Holder(x) in s.g[s.roots[x]].owners;
    }
  }

  /** After a step at an unshared root the values above its level are right as well. */
  lemma FaithfulAbove<N, T>(s: State<N, T>, u: State<N, T>, q: N, l: nat)
    requires q in s.g && Downs(s) && Faithful(s, l) && Frame(s, u, q) && Faithful(u, s.g[q].level) && Downs(u)
    requires forall o :: o in s.g[q].owners ==> o.Holder?
    ensures Faithful(u, l)
  {
    forall n | n in u.g && u.g[n].level <= l ensures ValueOk(u, n) {
      if s.g[q].level < u.g[n].level {
        assert n in s.g && u.g[n] == s.g[n] && DownOk(s, n) && ValueOk(s, n);
        var cs := s.g[n].children;
        forall i | 0 <= i < |cs| ensures cs[i] in u.g && u.g[cs[i]] == s.g[cs[i]] {
          assert KidOk(s, n, cs[i]);
        }
        ValueKept(s, u, n);
      }
    }
  }

  lemma CowOthers<N, T>(s: State<N, T>, b: T, c: N, d: N)
    requires CowPre(s, Holder(b), 0, c, d) && RootsOk(s)
    ensures Others(s, Cow(s, Holder(b), 0, c, d), b)
  {
  }

  /** A new branch q on top of the root of b. */
  ghost function Grow<N, T>(s: State<N, T>, b: T, q: N): State<N, T>
    requires b in s.roots && s.roots[b] in s.g && q !in s.g
  {
    var c := s.roots[b];
    State(s.g[c := s.g[c].(owners := s.g[c].owners - {Holder(b)} + {Parent(q)})]
             [q := Rec(0, false, s.g[c].level + 1, [], [c], {Holder(b)}, Branch([], [s.g[c].value]))],
          s.roots[b := q])
  }

  lemma GrowNode<N, T>(s: State<N, T>, b: T, q: N, n: N)
    requires b in s.roots && s.roots[b] in s.g && q !in s.g && n in s.g && DownOk(s, n) && UpOk(s, n)
    ensures DownOk(Grow(s, b, q), n)
    ensures forall o :: o in Grow(s, b, q).g[n].owners ==> Owns(Grow(s, b, q), o, n)
  {
    var u := Grow(s, b, q);
    forall j | 0 <= j < |s.g[n].children| ensures KidOk(u, n, s.g[n].children[j]) {
      assert KidOk(s, n, s.g[n].children[j]);
    }
    forall o | o in u.g[n].owners ensures Owns(u, o, n) {
      if o in s.g[n].owners { assert Owns(s, o, n); } else { assert u.g[q].children[0] == n; }
    }
  }

  lemma GrowCount<N, T>(s: State<N, T>, b: T, q: N, n: N)
    requires b in s.roots && s.roots[b] in s.g && q !in s.g && n in s.g && UpOk(s, n) && RootsOk(s)
    requires forall o :: o in Grow(s, b, q).g[n].owners ==> Owns(Grow(s, b, q), o, n)
    ensures UpOk(Grow(s, b, q), n)
  {
    var c := s.roots[b];
    if n == c {
      assert Parent(q) in s.g[c].owners ==> Owns(s, Parent(q), c);
      SwapCount(s.g[c].owners, Holder(b), Parent(q));
    }
  }

  lemma GrowOthers<N, T>(s: State<N, T>, b: T, q: N)
    requires b in s.roots && s.roots[b] in s.g && q !in s.g && RootsOk(s)
    ensures Others(s, Grow(s, b, q), b) && RootsOk(Grow(s, b, q))
  {
  }

  lemma GrowLinked<N, T>(s: State<N, T>, b: T, q: N)
    requires b in s.roots && s.roots[b] in s.g && q !in s.g && Linked(s)
    ensures Linked(Grow(s, b, q)) && Others(s, Grow(s, b, q), b)
  {
    var u, c := Grow(s, b, q), s.roots[b];
    assert DownOk(s, c);
    GrowOthers(s, b, q);
    assert KidOk(u, q, c) && Owns(u, Holder(b), q);
    assert DownOk(u, q) && UpOk(u, q);
    hide DownOk, UpOk, RootsOk, Others;
    forall n | n in u.g && n != q ensures DownOk(u, n) && UpOk(u, n) {
      assert DownOk(s, n) && UpOk(s, n);
      GrowNode(s, b, q, n);
      GrowCount(s, b, q, n);
    }
  }

  lemma GrowFaithful<N, T>(s: State<N, T>, b: T, q: N, l: nat)
    requires b in s.roots && s.roots[b] in s.g && q !in s.g && Faithful(s, l)
    ensures Faithful(Grow(s, b, q), l)
  {
    var u := Grow(s, b, q);
    forall n | n in u.g && u.g[n].level <= l ensures ValueOk(u, n) {
      if n == q {
        assert Values(u, u.g[q].children) == [s.g[s.roots[b]].value];
      } else {
        assert ValueOk(s, n);
        ValueKept(s, u, n);
      }
    }
  }

  /** The root of b has a single child, which becomes the root. */
  ghost predicate CollapsePre<N, T>(s: State<N, T>, b: T) {
    && b in s.roots && s.roots[b] in s.g && Sole(s, s.roots[b], Holder(b))
    && |s.g[s.roots[b]].children| == 1 && s.g[s.roots[b]].children[0] in s.g
    && s.g[s.roots[b]].children[0] != s.roots[b]
  }

  ghost function Collapse<N, T>(s: State<N, T>, b: T): State<N, T>
    requires CollapsePre(s, b)
  {
    var q := s.roots[b];
    var c := s.g[q].children[0];
    State((map n | n in s.g && n != q ::
             if n == c then s.g[n].(owners := s.g[n].owners - {Parent(q)} + {Holder(b)}) else s.g[n]),
          s.roots[b := c])
  }

  lemma CollapseLinked<N, T>(s: State<N, T>, b: T)
    requires CollapsePre(s, b) && Linked(s)
    ensures Linked(Collapse(s, b)) && Others(s, Collapse(s, b), b)
  {
    var u := Collapse(s, b);
    CollapseOthers(s, b);
    hide DownOk, UpOk, Others;
    forall n | n in u.g ensures DownOk(u, n) && UpOk(u, n) {
      CollapseNode(s, b, n);
    }
  }

  lemma CollapseOthers<N, T>(s: State<N, T>, b: T)
    requires CollapsePre(s, b) && RootsOk(s)
    ensures RootsOk(Collapse(s, b)) && Others(s, Collapse(s, b), b)
  {
    forall x | x in s.roots && x != b ensures s.roots[x] != s.roots[b] { assert Holder(x) in s.g[s.roots[x]].owners; }
  }

  lemma CollapseNode<N, T>(s: State<N, T>, b: T, n: N)
    requires CollapsePre(s, b) && Linked(s) && n in Collapse(s, b).g
    ensures DownOk(Collapse(s, b), n) && UpOk(Collapse(s, b), n)
  {
    var q := s.roots[b];
    var c := s.g[q].children[0];
    assert DownOk(s, q) && UpOk(s, c) && UpOk(s, q) && DownOk(s, n) && UpOk(s, n);
    CollapseDown(s, b, n);
    assert KidOk(s, q, c);
    CollapseUp(s, b, n);
  }

  lemma CollapseUp<N, T>(s: State<N, T>, b: T, n: N)
    requires CollapsePre(s, b) && RootsOk(s) && n in Collapse(s, b).g && UpOk(s, n)
    requires var q := s.roots[b]; KidOk(s, q, s.g[q].children[0])
    ensures UpOk(Collapse(s, b), n)
  {
    var u := Collapse(s, b);
    CollapseCount(s, b, n);
    forall o | o in u.g[n].owners ensures Owns(u, o, n) {
      if o in s.g[n].owners { assert Owns(s, o, n); }
    }
  }

  lemma CollapseCount<N, T>(s: State<N, T>, b: T, n: N)
    requires CollapsePre(s, b) && n in Collapse(s, b).g && UpOk(s, n)
    requires var q := s.roots[b]; KidOk(s, q, s.g[q].children[0])
    ensures Collapse(s, b).g[n].rc + 1 == |Collapse(s, b).g[n].owners|
  {
    if n == s.g[s.roots[b]].children[0] {
      assert Holder(b) in s.g[n].owners ==> Owns(s, Holder(b), n);
      SwapCount(s.g[n].owners, Parent(s.roots[b]), Holder(b));
    }
  }

  lemma CollapseDown<N, T>(s: State<N, T>, b: T, n: N)
    requires CollapsePre(s, b) && DownOk(s, s.roots[b]) && n in Collapse(s, b).g && DownOk(s, n)
    requires UpOk(s, s.g[s.roots[b]].children[0]) && UpOk(s, s.roots[b])
    ensures DownOk(Collapse(s, b), n)
  {
    var u := Collapse(s, b);
    forall j | 0 <= j < |s.g[n].children| ensures KidOk(u, n, s.g[n].children[j]) {
      assert KidOk(s, n, s.g[n].children[j]);
    }
  }

  /** A tree without a root gets a leaf with one entry. */
  ghost function Plant<N, T>(s: State<N, T>, b: T, d: N, e: Entry): State<N, T>
    requires b !in s.roots && d !in s.g
  {
    State(s.g[d := Rec(0, true, 1, [e], [], {Holder(b)}, Leaf([e]))], s.roots[b := d])
  }

  lemma PlantLinked<N, T>(s: State<N, T>, b: T, d: N, e: Entry)
    requires b !in s.roots && d !in s.g && Linked(s)
    ensures Linked(Plant(s, b, d, e)) && Others(s, Plant(s, b, d, e), b)
  {
    var u := Plant(s, b, d, e);
    forall n | n in u.g ensures DownOk(u, n) && UpOk(u, n) {
      if n != d {
        assert DownOk(s, n) && UpOk(s, n);
        forall j | 0 <= j < |s.g[n].children| ensures KidOk(u, n, s.g[n].children[j]) {
          assert KidOk(s, n, s.g[n].children[j]);
        }
        forall o | o in u.g[n].owners ensures Owns(u, o, n) { assert Owns(s, o, n); }
      }
    }
  }

  /** The root of b is a leaf and goes away. */
  ghost predicate UprootPre<N, T>(s: State<N, T>, b: T) {
    b in s.roots && s.roots[b] in s.g && Sole(s, s.roots[b], Holder(b)) && s.g[s.roots[b]].children == []
  }

  ghost function Uproot<N, T>(s: State<N, T>, b: T): State<N, T>
    requires UprootPre(s, b)
  {
    State(map n | n in s.g && n != s.roots[b] :: s.g[n], map x | x in s.roots && x != b :: s.roots[x])
  }

  lemma UprootLinked<N, T>(s: State<N, T>, b: T)
    requires UprootPre(s, b) && Linked(s)
    ensures Linked(Uproot(s, b)) && Others(s, Uproot(s, b), b)
  {
    var u, q := Uproot(s, b), s.roots[b];
    forall x | x in s.roots && x != b ensures s.roots[x] != q { assert Holder(x) in s.g[s.roots[x]].owners; }
    forall n | n in u.g ensures DownOk(u, n) && UpOk(u, n) {
      assert DownOk(s, n) && UpOk(s, n);
      forall j | 0 <= j < |s.g[n].children| ensures KidOk(u, n, s.g[n].children[j]) {
        assert KidOk(s, n, s.g[n].children[j]);
      }
      forall o | o in u.g[n].owners ensures Owns(u, o, n) { assert Owns(s, o, n); }
    }
  }

  /** udx_btree_clone: b2 shares the root of b. */
  ghost function Share<N, T>(s: State<N, T>, b: T, b2: T): State<N, T>
    requires b in s.roots && s.roots[b] in s.g
  {
    var q := s.roots[b];
    State(s.g[q := s.g[q].(rc := s.g[q].rc + 1, owners := s.g[q].owners + {Holder(b2)})], s.roots[b2 := q])
  }

  lemma ShareLinked<N, T>(s: State<N, T>, b: T, b2: T)
    requires b in s.roots && s.roots[b] in s.g && b2 !in s.roots && Linked(s)
    ensures Linked(Share(s, b, b2)) && Others(s, Share(s, b, b2), b2)
  {
    var u, q := Share(s, b, b2), s.roots[b];
    assert Holder(b2) in s.g[q].owners ==> Owns(s, Holder(b2), q) by { assert UpOk(s, q); }
    forall n | n in u.g ensures DownOk(u, n) && UpOk(u, n) {
      assert DownOk(s, n) && UpOk(s, n);
      forall j | 0 <= j < |s.g[n].children| ensures KidOk(u, n, s.g[n].children[j]) {
        assert KidOk(s, n, s.g[n].children[j]);
      }
      forall o | o in u.g[n].owners ensures Owns(u, o, n) {
        if o in s.g[n].owners { assert Owns(s, o, n); }
      }
    }
  }

  /** A step that only drops nodes or changes who refers to them keeps values right. */
  lemma FaithfulSame<N, T>(s: State<N, T>, u: State<N, T>, l: nat)
    requires Faithful(s, l) && Downs(u)
    requires forall n :: n in u.g ==> n in s.g && SameFields(s.g[n], u.g[n])
    ensures Faithful(u, l)
  {
    forall n | n in u.g && u.g[n].level <= l ensures ValueOk(u, n) {
      assert ValueOk(s, n) && DownOk(u, n);
      assert forall i :: 0 <= i < |u.g[n].children| ==> KidOk(u, n, u.g[n].children[i]);
      ValueKept(s, u, n);
    }
  }

  lemma PlantFaithful<N, T>(s: State<N, T>, b: T, d: N, e: Entry, l: nat)
    requires b !in s.roots && d !in s.g && Faithful(s, l)
    ensures Faithful(Plant(s, b, d, e), l)
  {
    var u := Plant(s, b, d, e);
    forall n | n in u.g && u.g[n].level <= l ensures ValueOk(u, n) {
      if n != d {
        assert ValueOk(s, n);
        ValueKept(s, u, n);
      }
    }
  }

  // ---------------------------------------------------------------- the deals of the B-tree

  /** Slot i of p holds an unshared child, and both stand for the value they spell out. */
  ghost predicate OwnKid<N, T>(s: State<N, T>, p: N, i: nat) {
    && p in s.g && DownOk(s, p) && ValueOk(s, p) && i < |s.g[p].children|
    && var c := s.g[p].children[i];
       c in s.g && DownOk(s, c) && ValueOk(s, c) && Sole(s, c, Parent(p)) && s.g[c].rc == 0
       && s.g[c].level + 1 == s.g[p].level
  }

  ghost function SplitDeal<N, T>(s: State<N, T>, p: N, i: nat, mid: nat, r: N): Deal<N>
    requires OwnKid(s, p, i) && mid < |s.g[s.g[p].children[i]].items|
  {
    var a, c := s.g[p], s.g[s.g[p].children[i]];
    Deal(p, a.items[..i] + [c.items[mid]] + a.items[i..], a.children[..i + 1] + [r] + a.children[i + 1..],
         a.children[i], c.items[..mid], if c.leaf then [] else c.children[..mid + 1],
         r, true, c.items[mid + 1..], if c.leaf then [] else c.children[mid + 1..])
  }

  lemma KidInserted<N>(cs: seq<N>, i: nat, r: N)
    requires i < |cs| && Distinct(cs) && r !in cs
    ensures var ds := cs[..i + 1] + [r] + cs[i + 1..];
      && Distinct(ds) && r in ds
      && (forall k :: k in ds ==> k == r || k in cs) && (forall k :: k in cs ==> k in ds)
  {
    var ds := cs[..i + 1] + [r] + cs[i + 1..];
    assert ds[i + 1] == r;
    forall k | k in cs ensures k in ds {
      var j :| 0 <= j < |cs| && cs[j] == k;
      assert ds[if j <= i then j else j + 1] == k;
    }
  }

  lemma KidRemoved<N>(cs: seq<N>, i: nat)
    requires i < |cs| && Distinct(cs)
    ensures var ds := cs[..i] + cs[i + 1..];
      && Distinct(ds) && cs[i] !in ds
      && (forall k :: k in ds ==> k in cs) && (forall k :: k in cs && k != cs[i] ==> k in ds)
  {
    var ds := cs[..i] + cs[i + 1..];
    forall k | k in cs && k != cs[i] ensures k in ds {
      var j :| 0 <= j < |cs| && cs[j] == k;
      assert ds[if j < i then j else j - 1] == k;
    }
  }

  lemma SplitDealOk<N, T>(s: State<N, T>, p: N, i: nat, mid: nat, r: N)
    requires OwnKid(s, p, i) && mid < |s.g[s.g[p].children[i]].items| && r !in s.g
    ensures DealPre(s, SplitDeal(s, p, i, mid, r))
  {
    var d := SplitDeal(s, p, i, mid, r);
    var a, c := s.g[p], s.g[s.g[p].children[i]];
    assert forall j :: 0 <= j < |a.children| ==> KidOk(s, p, a.children[j]);
    KidInserted(a.children, i, r);
    assert DealTop(s, d);
    assert d.lKids + d.rKids == c.children;
  }

  lemma SplitDealHalves<N, T>(s: State<N, T>, p: N, i: nat, mid: nat, r: N)
    requires OwnKid(s, p, i) && mid < |s.g[s.g[p].children[i]].items| && r !in s.g
    requires DealPre(s, SplitDeal(s, p, i, mid, r))
    ensures var d, w := SplitDeal(s, p, i, mid, r), s.g[s.g[p].children[i]].value;
      && mid < |w.items| && (w.Branch? ==> |w.children| == |w.items| + 1)
      && DealLeft(s, d) == LowerHalf(w, mid) && DealRight(s, d) == UpperHalf(w, mid)
  {
    var d, c := SplitDeal(s, p, i, mid, r), s.g[s.g[p].children[i]];
    DealKnown(s, d);
    if !c.leaf {
      assert Values(s, d.lKids) == Values(s, c.children)[..mid + 1];
      assert Values(s, d.rKids) == Values(s, c.children)[mid + 1..];
    }
  }

  lemma SplitDealParent<N, T>(s: State<N, T>, p: N, i: nat, mid: nat, r: N)
    requires OwnKid(s, p, i) && mid < |s.g[s.g[p].children[i]].items| && r !in s.g
    requires DealPre(s, SplitDeal(s, p, i, mid, r))
    ensures var d, a := SplitDeal(s, p, i, mid, r), s.g[p];
      var v, w := a.value, s.g[a.children[i]].value;
      && v.Branch? && v.items == a.items && |v.children| == |a.children| && v.children[i] == w
      && DealParent(s, d)
         == Branch(d.pItems, v.children[..i] + [DealLeft(s, d), DealRight(s, d)] + v.children[i + 1..])
  {
    var d, a := SplitDeal(s, p, i, mid, r), s.g[p];
    DealKnown(s, d);
    hide DealLeft, DealRight;
    var u := DealParent(s, d);
    forall j | 0 <= j < |d.pKids| && j != i && j != i + 1
      ensures u.children[j] == a.value.children[if j < i then j else j - 1]
    {
      assert d.pKids[j] == a.children[if j < i then j else j - 1];
    }
    assert u.children == a.value.children[..i] + [DealLeft(s, d), DealRight(s, d)] + a.value.children[i + 1..];
  }

  lemma SplitDealValue<N, T>(s: State<N, T>, p: N, i: nat, mid: nat, r: N)
    requires OwnKid(s, p, i) && mid < |s.g[s.g[p].children[i]].items| && r !in s.g
    requires DealPre(s, SplitDeal(s, p, i, mid, r))
    ensures var v, w := s.g[p].value, s.g[s.g[p].children[i]].value;
      && v.Branch? && |v.children| == |v.items| + 1 && i <= |v.items| && v.children[i] == w
      && mid < |w.items| && (w.Branch? ==> |w.children| == |w.items| + 1)
      && DealParent(s, SplitDeal(s, p, i, mid, r)) == WithTwo(v, i, LowerHalf(w, mid), w.items[mid], UpperHalf(w, mid))
  {
    SplitDealHalves(s, p, i, mid, r);
    SplitDealParent(s, p, i, mid, r);
    hide LowerHalf, UpperHalf, DealLeft, DealRight, DealParent;
  }

  /** Slots j and j+1 of p hold unshared siblings with different children. */
  ghost predicate OwnPair<N, T>(s: State<N, T>, p: N, j: nat) {
    && OwnKid(s, p, j) && OwnKid(s, p, j + 1)
    && Distinct(s.g[s.g[p].children[j]].children + s.g[s.g[p].children[j + 1]].children)
  }

  ghost function PairOf<N, T>(s: State<N, T>, p: N, j: nat): (Rec<N, T>, Entry, Rec<N, T>)
    requires OwnPair(s, p, j)
  {
    (s.g[s.g[p].children[j]], s.g[p].items[j], s.g[s.g[p].children[j + 1]])
  }

  ghost function MergeDeal<N, T>(s: State<N, T>, p: N, j: nat): Deal<N>
    requires OwnPair(s, p, j)
  {
    var a := s.g[p];
    var (l, x, r) := PairOf(s, p, j);
    Deal(p, a.items[..j] + a.items[j + 1..], a.children[..j + 1] + a.children[j + 2..],
         a.children[j], l.items + [x] + r.items, l.children + r.children,
         a.children[j + 1], false, [], [])
  }

  ghost function RightDeal<N, T>(s: State<N, T>, p: N, j: nat): Deal<N>
    requires OwnPair(s, p, j) && s.g[s.g[p].children[j]].items != []
  {
    var a := s.g[p];
    var (l, x, r) := PairOf(s, p, j);
    var n := |l.items|;
    Deal(p, a.items[j := l.items[n - 1]], a.children,
         a.children[j], l.items[..n - 1], if l.leaf then [] else l.children[..n],
         a.children[j + 1], true, [x] + r.items, if l.leaf then [] else [l.children[n]] + r.children)
  }

  ghost function LeftDeal<N, T>(s: State<N, T>, p: N, j: nat): Deal<N>
    requires OwnPair(s, p, j) && s.g[s.g[p].children[j + 1]].items != []
  {
    var a := s.g[p];
    var (l, x, r) := PairOf(s, p, j);
    Deal(p, a.items[j := r.items[0]], a.children,
         a.children[j], l.items + [x], if l.leaf then [] else l.children + [r.children[0]],
         a.children[j + 1], true, r.items[1..], if l.leaf then [] else r.children[1..])
  }

  lemma PairFacts<N, T>(s: State<N, T>, p: N, j: nat)
    requires OwnPair(s, p, j)
    ensures var a := s.g[p];
      && !a.leaf && j < |a.items| && |a.children| == |a.items| + 1 && Distinct(a.children)
      && a.children[j] != a.children[j + 1] && a.children[j] != p && a.children[j + 1] != p
      && var l, r := s.g[a.children[j]], s.g[a.children[j + 1]];
         && l.leaf == r.leaf
         && (l.leaf ==> l.children == [] && r.children == [])
         && (!l.leaf ==> |l.children| == |l.items| + 1 && |r.children| == |r.items| + 1)
  {
  }

  lemma MergeDealOk<N, T>(s: State<N, T>, p: N, j: nat)
    requires OwnPair(s, p, j)
    ensures DealPre(s, MergeDeal(s, p, j))
  {
    PairFacts(s, p, j);
    var d, cs := MergeDeal(s, p, j), s.g[p].children;
    KidRemoved(cs, j + 1);
    assert d.pKids == cs[..j + 1] + cs[j + 1 + 1..];
    assert DealTop(s, d);
    assert d.lKids + d.rKids == OldKids(s, d);
  }

  lemma RightDealOk<N, T>(s: State<N, T>, p: N, j: nat)
    requires OwnPair(s, p, j) && s.g[s.g[p].children[j]].items != []
    ensures DealPre(s, RightDeal(s, p, j))
  {
    PairFacts(s, p, j);
    var d := RightDeal(s, p, j);
    assert DealTop(s, d);
    assert d.lKids + d.rKids == OldKids(s, d);
  }

  lemma LeftDealOk<N, T>(s: State<N, T>, p: N, j: nat)
    requires OwnPair(s, p, j) && s.g[s.g[p].children[j + 1]].items != []
    ensures DealPre(s, LeftDeal(s, p, j))
  {
    PairFacts(s, p, j);
    var d := LeftDeal(s, p, j);
    assert DealTop(s, d);
    assert d.lKids + d.rKids == OldKids(s, d);
  }

  /** The pair of values behind a pair of nodes. */
  lemma PairValues<N, T>(s: State<N, T>, p: N, j: nat)
    requires OwnPair(s, p, j)
    ensures var v := s.g[p].value;
      && v.Branch? && |v.children| == |v.items| + 1 && j < |v.items|
      && Siblings(PairAt(v, j))
      && var (l, x, r) := PairOf(s, p, j);
         PairAt(v, j) == Pair(l.value, x, r.value) && v.items == s.g[p].items
         && l.value.items == l.items && r.value.items == r.items && l.value.Leaf? == l.leaf
  {
  }

  lemma MergeDealHalf<N, T>(s: State<N, T>, p: N, j: nat)
    requires OwnPair(s, p, j) && DealPre(s, MergeDeal(s, p, j))
    ensures PairsAt(s.g[p].value, j)
    ensures var q := PairAt(s.g[p].value, j); DealLeft(s, MergeDeal(s, p, j)) == Join(q.l, q.x, q.r)
  {
    var d := MergeDeal(s, p, j);
    DealKnown(s, d);
    PairFacts(s, p, j);
    PairValues(s, p, j);
    var (l, x, r) := PairOf(s, p, j);
    if !l.leaf { assert Values(s, d.lKids) == Values(s, l.children) + Values(s, r.children); }
  }

  lemma MergeDealValue<N, T>(s: State<N, T>, p: N, j: nat)
    requires OwnPair(s, p, j) && DealPre(s, MergeDeal(s, p, j))
    ensures PairsAt(s.g[p].value, j)
    ensures var q := PairAt(s.g[p].value, j);
      DealParent(s, MergeDeal(s, p, j)) == WithOne(s.g[p].value, j, Join(q.l, q.x, q.r))
  {
    var d, v := MergeDeal(s, p, j), s.g[p].value;
    DealKnown(s, d);
    PairFacts(s, p, j);
    PairValues(s, p, j);
    MergeDealHalf(s, p, j);
    hide DealLeft, Join, PairAt;
    var u := DealParent(s, d);
    forall k | 0 <= k < |d.pKids| && k != j ensures u.children[k] == v.children[if k < j then k else k + 1] {
      assert d.pKids[k] == s.g[p].children[if k < j then k else k + 1];
    }
    assert u.children == v.children[..j] + [DealLeft(s, d)] + v.children[j + 2..];
  }

  predicate PairsAt(v: Tree, j: nat) {
    v.Branch? && |v.children| == |v.items| + 1 && j < |v.items| && Siblings(PairAt(v, j))
  }

  /** The parent's value after a deal that keeps its children. */
  lemma SwapDealValue<N, T>(s: State<N, T>, d: Deal<N>, j: nat)
    requires OwnPair(s, d.p, j) && DealPre(s, d) && d.keep
    requires d.l == s.g[d.p].children[j] && d.r == s.g[d.p].children[j + 1] && d.pKids == s.g[d.p].children
    requires |d.pItems| == |s.g[d.p].items| && d.pItems == s.g[d.p].items[j := d.pItems[j]]
    ensures KidsKnown(s, d.lKids) && KidsKnown(s, d.rKids) && PairsAt(s.g[d.p].value, j)
    ensures DealParent(s, d) == WithPair(s.g[d.p].value, j, DealLeft(s, d), d.pItems[j], DealRight(s, d))
  {
    DealKnown(s, d);
    PairFacts(s, d.p, j);
    PairValues(s, d.p, j);
    assert DealParent(s, d).children
        == s.g[d.p].value.children[j := DealLeft(s, d)][j + 1 := DealRight(s, d)];
  }

  lemma RightDealValue<N, T>(s: State<N, T>, p: N, j: nat)
    requires OwnPair(s, p, j) && s.g[s.g[p].children[j]].items != [] && DealPre(s, RightDeal(s, p, j))
    ensures PairsAt(s.g[p].value, j) && 1 <= |PairAt(s.g[p].value, j).l.items|
    ensures var q := RotateRight(PairAt(s.g[p].value, j));
      DealParent(s, RightDeal(s, p, j)) == WithPair(s.g[p].value, j, q.l, q.x, q.r)
  {
    var d := RightDeal(s, p, j);
    PairFacts(s, p, j);
    PairValues(s, p, j);
    var (l, x, r) := PairOf(s, p, j);
    var n := |l.items|;
    SwapDealValue(s, d, j);
    if !l.leaf {
      assert Values(s, d.lKids) == Values(s, l.children)[..n];
      assert Values(s, d.rKids) == [Values(s, l.children)[n]] + Values(s, r.children);
    }
  }

  lemma LeftDealValue<N, T>(s: State<N, T>, p: N, j: nat)
    requires OwnPair(s, p, j) && s.g[s.g[p].children[j + 1]].items != [] && DealPre(s, LeftDeal(s, p, j))
    ensures PairsAt(s.g[p].value, j) && 1 <= |PairAt(s.g[p].value, j).r.items|
    ensures var q := RotateLeft(PairAt(s.g[p].value, j));
      DealParent(s, LeftDeal(s, p, j)) == WithPair(s.g[p].value, j, q.l, q.x, q.r)
  {
    var d := LeftDeal(s, p, j);
    PairFacts(s, p, j);
    PairValues(s, p, j);
    var (l, x, r) := PairOf(s, p, j);
    SwapDealValue(s, d, j);
    if !l.leaf {
      assert Values(s, d.lKids) == Values(s, l.children) + [Values(s, r.children)[0]];
      assert Values(s, d.rKids) == Values(s, r.children)[1..];
    }
  }

  /** Siblings in one sorted tree cannot share a child. */
  lemma PairDistinct<N, T>(s: State<N, T>, p: N, j: nat)
    requires OwnKid(s, p, j) && OwnKid(s, p, j + 1) && Sorted(Flat(s.g[p].value))
    requires forall k :: k in s.g[s.g[p].children[j]].children ==> k in s.g && Flat(s.g[k].value) != []
    ensures OwnPair(s, p, j)
  {
    var a, b := s.g[s.g[p].children[j]], s.g[s.g[p].children[j + 1]];
    forall x, y | 0 <= x < |a.children| && 0 <= y < |b.children| ensures a.children[x] != b.children[y] {
      if a.children[x] == b.children[y] {
        SharedChild(s.g[p].value, j, x, y);
      }
    }
  }

  /** In a sorted list no entry occurs in two places. */
  lemma SortedOnce(x: seq<Entry>, y: seq<Entry>, e: Entry)
    requires Sorted(x + y)
    ensures e !in x || e !in y
  {
    SortedParts(x, y);
    LessIrreflexive(e.key);
  }

  lemma SharedChild(v: Tree, j: nat, x: nat, y: nat)
    requires PairsAt(v, j) && v.children[j].Branch? && Sorted(Flat(v))
    requires x < |v.children[j].children| && y < |v.children[j + 1].children|
    requires v.children[j].children[x] == v.children[j + 1].children[y]
    ensures Flat(v.children[j].children[x]) == []
  {
    hide Less;
    var a, b := v.children[j], v.children[j + 1];
    var f := Flat(a.children[x]);
    AroundItem(v, j);
    Decompose(a.items, a.children, x);
    Decompose(b.items, b.children, y);
    hide Flat, Left, Right, Sorted;
    var pre := Left(v.items, v.children, j) + Flat(a);
    var post := [v.items[j]] + (Flat(b) + Right(v.items, v.children, j + 1));
    assert Flat(v) == pre + post;
    if f != [] {
      var e := f[0];
      assert e in Flat(a) && e in Flat(b);
      SortedOnce(pre, post, e);
    }
  }
}
