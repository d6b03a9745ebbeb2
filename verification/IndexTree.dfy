// The static index tree: how n sorted entries are cut into nodes, which separators the
// nodes get, and which leaf a key leads to.

module IndexTrees {
  import opened Bytes
  import opened Entries

  /** A node of the index with the file offset it was written at. */
  datatype ITree =
    | ILeaf(off: nat, entries: seq<Entry>)
    | INode(off: nat, keys: seq<CString>, children: seq<ITree>)

  // ---------------------------------------------------------------- cutting n entries into m + 1 parts

  /** Where child x begins: index_size * x / (max_elements + 1). */
  function Cut(n: nat, m: nat, x: nat): nat {
    Quotient(Multiple(n, x), m + 1)
  }

  // Product and quotient are spelled out by repeated addition and subtraction, which keeps nonlinear arithmetic
  // out of the proofs about trees; CutIsDivision says that they are what the writer computes.

  function Multiple(n: nat, x: nat): nat {
    if x == 0 then 0 else Multiple(n, x - 1) + n
  }

  lemma {:induction false} MultipleIsProduct(n: nat, x: nat)
    ensures Multiple(n, x) == n * x
  {
    if x > 0 { MultipleIsProduct(n, x - 1); }
  }

  function Quotient(a: nat, k: nat): nat
    requires k > 0
    decreases a
  {
    if a < k then 0 else Quotient(a - k, k) + 1
  }

  lemma {:induction false} QuotientIsDivision(a: nat, k: nat)
    requires k > 0
    ensures Quotient(a, k) == a / k
    decreases a
  {
    if a < k {
      QuotientIs(a, k, 0);
    } else {
      QuotientIsDivision(a - k, k);
      QuotientBounds(a - k, k);
      var q := (a - k) / k;
      assert k * (q + 1) == k * q + k;
      QuotientIs(a, k, q + 1);
    }
  }

  /** The cut as the writer computes it. */
  lemma CutIsDivision(n: nat, m: nat, x: nat)
    ensures Cut(n, m, x) == n * x / (m + 1)
  {
    MultipleIsProduct(n, x);
    QuotientIsDivision(n * x, m + 1);
  }

  /** s is n / p rounded down or up. */
  predicate Near(n: nat, p: nat, s: int) {
    p * (s - 1) < n < p * (s + 1)
  }

  lemma QuotientBounds(a: nat, k: nat)
    requires k > 0
    ensures k * (a / k) <= a < k * (a / k) + k
  {
  }

  lemma QuotientIs(a: nat, k: nat, q: nat)
    requires k > 0 && k * q <= a < k * q + k
    ensures a / k == q
  {
    QuotientBounds(a, k);
    var r := a / k;
    if r < q { ScaleAtMost(k, r + 1, q); }
    if r > q { ScaleAtMost(k, q + 1, r); }
  }

  lemma ScaleLess(p: nat, a: int, b: int)
    requires p > 0 && p * a < p * b
    ensures a < b
  {
    if a >= b { ScaleAtMost(p, b, a); }
  }

  lemma ScaleAtMost(p: nat, a: int, b: int)
    requires a <= b
    ensures p * a <= p * b
  {
  }

  /** Neighbouring cuts are n / (m + 1) apart, rounded down or up. */
  lemma CutStep(n: nat, m: nat, x: nat)
    ensures Near(n, m + 1, Cut(n, m, x + 1) - Cut(n, m, x))
    ensures Cut(n, m, x) <= Cut(n, m, x + 1)
    ensures Cut(n, m, 0) == 0 && Cut(n, m, m + 1) == n
  {
    CutIsDivision(n, m, x);
    CutIsDivision(n, m, x + 1);
    CutIsDivision(n, m, 0);
    CutIsDivision(n, m, m + 1);
    hide Quotient, Cut, Near;
    QuotientStep(n * x, n, m + 1);
    assert n * (x + 1) == n * x + n;
    FullCut(n, m + 1);
    QuotientIs(n * 0, m + 1, 0);
  }

  lemma QuotientStep(a: nat, n: nat, k: nat)
    requires k > 0
    ensures Near(n, k, (a + n) / k - a / k) && a / k <= (a + n) / k
  {
    QuotientBounds(a, k);
    QuotientBounds(a + n, k);
    var u, v := a / k, (a + n) / k;
    assert k * (v - u) == k * v - k * u;
    assert k * (v - u - 1) == k * (v - u) - k && k * (v - u + 1) == k * (v - u) + k;
    if v < u { ScaleAtMost(k, v - u, -1); }
  }

  lemma FullCut(n: nat, k: nat)
    requires k > 0
    ensures n * k / k == n
  {
    QuotientIs(n * k, k, n);
  }

  lemma {:induction false} CutMonotone(n: nat, m: nat, x: nat, y: nat)
    requires x <= y <= m + 1
    ensures Cut(n, m, x) <= Cut(n, m, y) <= n
    decreases m + 1 - x
  {
    CutStep(n, m, x);
    if x < y {
      CutMonotone(n, m, x + 1, y);
    } else if x <= m {
      CutMonotone(n, m, x + 1, m + 1);
    }
  }

  /** Being near is being the quotient rounded down or up. */
  lemma NearIff(n: nat, p: nat, s: int)
    requires p > 0
    ensures Near(n, p, s) <==> s == n / p || s == (n + p - 1) / p
  {
    var q := n / p;
    Ceiling(n, p);
    assert p * (q + 1) == p * q + p && p * (q - 1) == p * q - p && p * (q + 2) == p * q + 2 * p;
    if Near(n, p, s) {
      ScaleLess(p, s - 1, q + 1);
      ScaleLess(p, q, s + 1);
    }
  }

  lemma Ceiling(n: nat, p: nat)
    requires p > 0
    ensures p * (n / p) <= n < p * (n / p) + p
    ensures (n + p - 1) / p == if n == p * (n / p) then n / p else n / p + 1
  {
    var q := n / p;
    QuotientBounds(n, p);
    if n == p * q {
      QuotientIs(n + p - 1, p, q);
    } else {
      assert p * (q + 1) == p * q + p;
      QuotientIs(n + p - 1, p, q + 1);
    }
  }

  /** Rounded quotients compose. */
  lemma NearTrans(n: nat, p: nat, s: nat, q: nat, u: nat)
    requires Near(n, p, s) && Near(s, q, u)
    ensures Near(n, p * q, u)
  {
    ScaleAtMost(p, s + 1, q * (u + 1));
    ScaleAtMost(p, q * (u - 1), s - 1);
    assert p * (q * (u + 1)) == p * q * (u + 1);
    assert p * (q * (u - 1)) == p * q * (u - 1);
  }

  /** The parts of more than m entries: none is empty, and each is smaller than the whole. */
  lemma PartSize(n: nat, m: nat, x: nat)
    requires 1 <= m < n && x <= m
    ensures var s := Cut(n, m, x + 1) - Cut(n, m, x); 1 <= s < n && Near(n, m + 1, s)
    ensures Cut(n, m, x) <= Cut(n, m, x + 1) <= n
  {
    CutStep(n, m, x);
    CutMonotone(n, m, x + 1, m + 1);
    NearSize(n, m, Cut(n, m, x + 1) - Cut(n, m, x));
  }

  lemma NearSize(n: nat, m: nat, s: int)
    requires 1 <= m < n && Near(n, m + 1, s)
    ensures 1 <= s < n
  {
    var k: nat, l: nat := m + 1, n - 1;
    assert l * k == k * l;
    ScaleAtMost(l, 2, k);
    if s < 1 { ScaleAtMost(k, s + 1, 1); }
    if s >= n { ScaleAtMost(k, l, s - 1); }
  }

  /** The entries of child x. */
  function Part(es: seq<Entry>, m: nat, x: nat): (p: seq<Entry>)
    requires 1 <= m < |es| && x <= m
    ensures 1 <= |p| < |es|
  {
    PartSize(|es|, m, x);
    es[Cut(|es|, m, x)..Cut(|es|, m, x + 1)]
  }

  // ---------------------------------------------------------------- the tree over given entries

  /** The key of the last entry: what the writer records as a separator. */
  function LastKey(es: seq<Entry>): CString
    requires es != []
  {
    es[|es| - 1].key
  }

  /** t is the tree that the writer builds over the entries with node capacity m. */
  ghost predicate Built(t: ITree, es: seq<Entry>, m: nat)
    decreases t
  {
    1 <= m &&
    if |es| <= m then t.ILeaf? && t.entries == es
    else
      && t.INode? && |t.children| == m + 1 && |t.keys| == m
      && (forall x :: 0 <= x <= m ==> Built(t.children[x], Part(es, m, x), m))
      && (forall x :: 0 <= x < m ==> t.keys[x] == LastKey(Part(es, m, x)))
  }

  lemma BuiltKind(t: ITree, es: seq<Entry>, m: nat)
    requires Built(t, es, m)
    ensures 1 <= m && (t.ILeaf? <==> |es| <= m) && (t.ILeaf? ==> t.entries == es)
    ensures t.INode? ==> |t.children| == m + 1 && |t.keys| == m
  {
  }

  /** Where the parts lie. */
  lemma PartAt(es: seq<Entry>, m: nat, x: nat)
    requires 1 <= m < |es| && x <= m
    ensures Cut(|es|, m, x) < Cut(|es|, m, x + 1) <= |es| && Cut(|es|, m, 0) == 0 && Cut(|es|, m, m + 1) == |es|
    ensures Part(es, m, x) == es[Cut(|es|, m, x)..Cut(|es|, m, x + 1)] && Near(|es|, m + 1, |Part(es, m, x)|)
  {
    PartSize(|es|, m, x);
    CutStep(|es|, m, x);
  }

  /** Child x of a built node. */
  lemma BuiltChild(t: ITree, es: seq<Entry>, m: nat, x: nat)
    requires Built(t, es, m) && t.INode? && x <= m
    ensures m < |es| && |t.children| == m + 1 && |t.keys| == m
    ensures Built(t.children[x], Part(es, m, x), m) && (x < m ==> t.keys[x] == LastKey(Part(es, m, x)))
  {
  }

  ghost function Leaves(t: ITree): seq<ITree>
    decreases t
  {
    match t
    case ILeaf(_, _) => [t]
    case INode(_, _, children) => LeavesTo(children, |children|)
  }

  /** The leaves below the first i children. */
  ghost function LeavesTo(children: seq<ITree>, i: nat): seq<ITree>
    requires i <= |children|
    decreases children, i
  {
    if i == 0 then [] else LeavesTo(children, i - 1) + Leaves(children[i - 1])
  }

  /** All entries of a list of leaves. */
  ghost function Concat(ls: seq<ITree>): seq<Entry> {
    if ls == [] then []
    else Concat(ls[..|ls| - 1]) + if ls[|ls| - 1].ILeaf? then ls[|ls| - 1].entries else []
  }

  lemma {:induction false} ConcatAppend(a: seq<ITree>, b: seq<ITree>)
    ensures Concat(a + b) == Concat(a) + Concat(b)
  {
    if b == [] {
      assert a + b == a;
    } else {
      ConcatAppend(a, b[..|b| - 1]);
      assert (a + b)[..|a + b| - 1] == a + b[..|b| - 1];
      var l := b[|b| - 1];
      var e := if l.ILeaf? then l.entries else [];
      assert Concat(a) + Concat(b[..|b| - 1]) + e == Concat(a) + (Concat(b[..|b| - 1]) + e);
    }
  }

  lemma ConcatSingle(l: ITree)
    requires l.ILeaf?
    ensures Concat([l]) == l.entries
  {
    assert [l][..0] == [];
  }

  ghost predicate AllLeaves(ls: seq<ITree>) {
    forall j :: 0 <= j < |ls| ==> ls[j].ILeaf?
  }

  /** The leaves hold exactly the entries, none of them empty. */
  lemma {:induction false} LeavesHold(t: ITree, es: seq<Entry>, m: nat)
    requires Built(t, es, m)
    ensures Concat(Leaves(t)) == es && AllLeaves(Leaves(t)) && Leaves(t) != []
    ensures es != [] ==> forall j :: 0 <= j < |Leaves(t)| ==> Leaves(t)[j].entries != []
    decreases t, 1
  {
    hide Built, Cut, Concat, LeavesTo, Near;
    BuiltKind(t, es, m);
    if t.ILeaf? {
      ConcatSingle(t);
    } else {
      LeavesToHold(t, es, m, m + 1);
      PartAt(es, m, m);
      assert es[..|es|] == es;
    }
  }

  lemma {:induction false} LeavesToHold(t: ITree, es: seq<Entry>, m: nat, i: nat)
    requires Built(t, es, m) && t.INode? && i <= m + 1
    ensures |t.children| == m + 1 && Cut(|es|, m, i) <= |es|
    ensures var ls := LeavesTo(t.children, i);
      && Concat(ls) == es[..Cut(|es|, m, i)] && AllLeaves(ls) && (i > 0 ==> ls != [])
      && forall j :: 0 <= j < |ls| ==> ls[j].entries != []
    decreases t, 0, i
  {
    hide Built, Cut, Near, Leaves, Part;
    BuiltKind(t, es, m);
    CutMonotone(|es|, m, i, m + 1);
    if i > 0 {
      hide Concat;
      BuiltChild(t, es, m, i - 1);
      LeavesToHold(t, es, m, i - 1);
      LeavesHold(t.children[i - 1], Part(es, m, i - 1), m);
      ConcatAppend(LeavesTo(t.children, i - 1), Leaves(t.children[i - 1]));
      PartAt(es, m, i - 1);
      PrefixJoin(es, Cut(|es|, m, i - 1), Cut(|es|, m, i));
    } else {
      PartAt(es, m, 0);
    }
  }

  /** Leaf j holds the stretch of the entries that begins behind the leaves before it. */
  lemma LeafSpan(ls: seq<ITree>, j: nat)
    requires AllLeaves(ls) && j < |ls|
    ensures var a := |Concat(ls[..j])|; var b := |Concat(ls[..j + 1])|;
      && a <= b <= |Concat(ls)| && b == a + |ls[j].entries| && ls[j].entries == Concat(ls)[a..b]
  {
    assert ls == ls[..j] + ([ls[j]] + ls[j + 1..]);
    assert ls[..j + 1] == ls[..j] + [ls[j]];
    ConcatAppend(ls[..j], [ls[j]] + ls[j + 1..]);
    ConcatAppend([ls[j]], ls[j + 1..]);
    ConcatAppend(ls[..j], [ls[j]]);
    ConcatSingle(ls[j]);
  }

  lemma SpansMonotone(ls: seq<ITree>, i: nat, j: nat)
    requires i <= j <= |ls|
    ensures |Concat(ls[..i])| <= |Concat(ls[..j])| <= |Concat(ls)|
  {
    assert ls[..j] == ls[..i] + ls[i..j];
    assert ls == ls[..j] + ls[j..];
    ConcatAppend(ls[..i], ls[i..j]);
    ConcatAppend(ls[..j], ls[j..]);
  }

  // ---------------------------------------------------------------- separators

  /** The separators of the whole tree from left to right. */
  ghost function Seps(t: ITree): seq<CString>
    decreases t
  {
    match t
    case ILeaf(_, _) => []
    case INode(_, keys, children) =>
      if |children| != |keys| + 1 then [] else SepsTo(keys, children, |keys|) + Seps(children[|keys|])
  }

  ghost function SepsTo(keys: seq<CString>, children: seq<ITree>, i: nat): seq<CString>
    requires i <= |keys| < |children|
    decreases children, i
  {
    if i == 0 then [] else SepsTo(keys, children, i - 1) + Seps(children[i - 1]) + [keys[i - 1]]
  }

  /** ks are the last keys of the leaves in ls. */
  ghost predicate LastKeys(ks: seq<CString>, ls: seq<ITree>) {
    && |ks| == |ls|
    && forall j :: 0 <= j < |ls| ==> ls[j].ILeaf? && ls[j].entries != [] && ks[j] == LastKey(ls[j].entries)
  }

  /** The last key of the entries is the last key of the last leaf. */
  lemma LastLeaf(t: ITree, es: seq<Entry>, m: nat)
    requires Built(t, es, m) && es != []
    ensures var ls := Leaves(t);
      ls != [] && ls[|ls| - 1].ILeaf? && ls[|ls| - 1].entries != [] && LastKey(ls[|ls| - 1].entries) == LastKey(es)
  {
    hide Built, Concat, Leaves;
    LeavesHold(t, es, m);
    var ls := Leaves(t);
    LeafSpan(ls, |ls| - 1);
    assert ls[..|ls|] == ls;
  }

  /** Over the whole tree the separators are the last keys of all leaves but the final one, each once and in order. */
  lemma {:induction false} SeparatorsAreLastKeys(t: ITree, es: seq<Entry>, m: nat)
    requires Built(t, es, m) && es != []
    ensures Leaves(t) != [] && LastKeys(Seps(t), Leaves(t)[..|Leaves(t)| - 1])
    decreases t, 1
  {
    hide Built, Concat, Cut, Near, SepsTo;
    BuiltKind(t, es, m);
    LeavesHold(t, es, m);
    if t.INode? {
      SepsToLast(t, es, m, m);
      BuiltChild(t, es, m, m);
      var c := t.children[m];
      SeparatorsAreLastKeys(c, Part(es, m, m), m);
      LeavesHold(c, Part(es, m, m), m);
      var a, b := LeavesTo(t.children, m), Leaves(c);
      assert Leaves(t) == a + b;
      assert (a + b)[..|a + b| - 1] == a + b[..|b| - 1];
    }
  }

  lemma {:induction false} SepsToLast(t: ITree, es: seq<Entry>, m: nat, i: nat)
    requires Built(t, es, m) && t.INode? && i <= m
    ensures |t.children| == |t.keys| + 1 == m + 1 && LastKeys(SepsTo(t.keys, t.children, i), LeavesTo(t.children, i))
    decreases t, 0, i
  {
    hide Built, Concat, Cut, Near, Leaves, Seps;
    BuiltKind(t, es, m);
    if i > 0 {
      BuiltChild(t, es, m, i - 1);
      var c, part := t.children[i - 1], Part(es, m, i - 1);
      SepsToLast(t, es, m, i - 1);
      SeparatorsAreLastKeys(c, part, m);
      LastLeaf(c, part, m);
      var ls := Leaves(c);
      assert ls == ls[..|ls| - 1] + [ls[|ls| - 1]];
      assert LastKeys(Seps(c) + [t.keys[i - 1]], ls);
      assert SepsTo(t.keys, t.children, i) == SepsTo(t.keys, t.children, i - 1) + (Seps(c) + [t.keys[i - 1]]);
    }
  }

  /** Inside one node: separator x is the greatest key of child x and below every key of the children behind it. */
  lemma SeparatorBounds(t: ITree, es: seq<Entry>, m: nat, x: nat, e: Entry)
    requires Built(t, es, m) && Sorted(es) && t.INode? && x < m
    ensures |t.keys| == m && |t.children| == m + 1
    ensures e in Concat(Leaves(t.children[x])) ==> e.key == t.keys[x] || Less(e.key, t.keys[x])
    ensures exists g :: g in Concat(Leaves(t.children[x])) && g.key == t.keys[x]
    ensures forall y :: x < y <= m && e in Concat(Leaves(t.children[y])) ==> Less(t.keys[x], e.key)
  {
    hide Less, Cut, Near, Built, Concat, Leaves;
    BuiltKind(t, es, m);
    PartAt(es, m, x);
    var n := |es|;
    BuiltChild(t, es, m, x);
    var part := Part(es, m, x);
    LeavesHold(t.children[x], part, m);
    assert part[|part| - 1] in part && part[|part| - 1] == es[Cut(n, m, x + 1) - 1];
    if e in part { var i := InStretch(es, Cut(n, m, x), Cut(n, m, x + 1), e); }
    forall y | x < y <= m && e in Concat(Leaves(t.children[y])) ensures Less(t.keys[x], e.key) {
      BuiltChild(t, es, m, y);
      LeavesHold(t.children[y], Part(es, m, y), m);
      CutMonotone(n, m, x + 1, y);
      PartAt(es, m, y);
      var i := InStretch(es, Cut(n, m, y), Cut(n, m, y + 1), e);
    }
  }

  lemma InStretch(es: seq<Entry>, a: nat, b: nat, e: Entry) returns (i: nat)
    requires a <= b <= |es| && e in es[a..b]
    ensures a <= i < b && es[i] == e
  {
    var j :| 0 <= j < |es[a..b]| && es[a..b][j] == e;
    i := a + j;
  }

  // ---------------------------------------------------------------- sizes by depth

  ghost function Power(b: nat, e: nat): nat {
    if e == 0 then 1 else b * Power(b, e - 1)
  }

  /** The subtree a path of child indices leads to. */
  ghost predicate Leads(t: ITree, path: seq<nat>, u: ITree)
    decreases |path|
  {
    if path == [] then u == t
    else t.INode? && path[0] < |t.children| && Leads(t.children[path[0]], path[1..], u)
  }

  /** Every node at depth k holds |es| / (m + 1)^k entries, rounded down or up. */
  lemma {:induction false} DepthSize(t: ITree, es: seq<Entry>, m: nat, path: seq<nat>, u: ITree)
    requires Built(t, es, m) && Leads(t, path, u)
    ensures Power(m + 1, |path|) > 0
    ensures exists us :: Built(u, us, m) && (|us| == |es| / Power(m + 1, |path|)
                         || |us| == (|es| + Power(m + 1, |path|) - 1) / Power(m + 1, |path|))
  {
    hide Near, Built;
    var us := DepthNear(t, es, m, path, u);
    PowerPositive(m + 1, |path|);
    NearIff(|es|, Power(m + 1, |path|), |us|);
  }

  lemma {:induction false} PowerPositive(b: nat, e: nat)
    requires b > 0
    ensures Power(b, e) > 0
  {
    if e > 0 { PowerPositive(b, e - 1); }
  }

  lemma NearSelf(n: nat)
    ensures Near(n, 1, n)
  {
  }

  lemma {:induction false} DepthNear(t: ITree, es: seq<Entry>, m: nat, path: seq<nat>, u: ITree)
    returns (us: seq<Entry>)
    requires Built(t, es, m) && Leads(t, path, u)
    ensures Built(u, us, m) && Near(|es|, Power(m + 1, |path|), |us|)
    decreases |path|
  {
    hide Near;
    if path == [] {
      NearSelf(|es|);
      us := es;
    } else {
      var part := Part(es, m, path[0]);
      PartAt(es, m, path[0]);
      us := DepthNear(t.children[path[0]], part, m, path[1..], u);
      NearTrans(|es|, m + 1, |part|, Power(m + 1, |path| - 1), |us|);
    }
  }

  // ---------------------------------------------------------------- heights

  /** The height the writer reports. */
  ghost function Height(t: ITree): (h: nat)
    ensures h >= 1
    decreases t
  {
    match t
    case ILeaf(_, _) => 1
    case INode(_, _, children) => Tallest(children, |children|) + 1
  }

  /** The greatest height among the first i children. */
  ghost function Tallest(children: seq<ITree>, i: nat): nat
    requires i <= |children|
    decreases children, i
  {
    if i == 0 then 0
    else if Height(children[i - 1]) > Tallest(children, i - 1) then Height(children[i - 1])
    else Tallest(children, i - 1)
  }

  /** Some leaf lies on level d, counting from 1 at the root. */
  ghost predicate LeafAt(t: ITree, d: nat)
    decreases t
  {
    match t
    case ILeaf(_, _) => d == 1
    case INode(_, _, children) => d > 1 && exists x :: 0 <= x < |children| && LeafAt(children[x], d - 1)
  }

  lemma {:induction false} TallestIs(children: seq<ITree>, i: nat)
    requires i <= |children|
    ensures forall x :: 0 <= x < i ==> Height(children[x]) <= Tallest(children, i)
    ensures i > 0 ==> exists x :: 0 <= x < i && Height(children[x]) == Tallest(children, i)
  {
    if i > 0 {
      TallestIs(children, i - 1);
      if Height(children[i - 1]) <= Tallest(children, i - 1) && i - 1 > 0 {
        var x :| 0 <= x < i - 1 && Height(children[x]) == Tallest(children, i - 1);
      }
    }
  }

  lemma {:induction false} DeepestLeaf(t: ITree, es: seq<Entry>, m: nat)
    requires Built(t, es, m)
    ensures LeafAt(t, Height(t))
    decreases t
  {
    if t.INode? {
      TallestIs(t.children, m + 1);
      var x :| 0 <= x < m + 1 && Height(t.children[x]) == Tallest(t.children, m + 1);
      DeepestLeaf(t.children[x], Part(es, m, x), m);
    }
  }

  /** Quotients of p * c and less are at most c. */
  lemma NearAtMost(n: nat, p: nat, s: nat, c: nat)
    requires p > 0 && Near(n, p, s) && n <= p * c
    ensures s <= c
  {
    if s > c { ScaleAtMost(p, c, s - 1); }
  }

  lemma NearGap(a: nat, b: nat, p: nat, s: nat, u: nat)
    requires p > 0 && Near(a, p, s) && Near(b, p, u) && b <= a + 1
    ensures u <= s + 1
  {
    if u > s + 1 { ScaleAtMost(p, s + 1, u - 1); }
  }

  /** A tree over at most one entry more is at most one level taller than the highest leaf. */
  lemma {:induction false} HeightGap(t: ITree, es: seq<Entry>, u: ITree, us: seq<Entry>, m: nat, d: nat)
    requires Built(t, es, m) && Built(u, us, m) && |us| <= |es| + 1 && LeafAt(t, d)
    ensures Height(u) <= d + 1
    decreases t
  {
    hide Built, Near, Cut;
    BuiltKind(t, es, m);
    BuiltKind(u, us, m);
    if u.INode? {
      TallestIs(u.children, m + 1);
      var y :| 0 <= y < m + 1 && Height(u.children[y]) == Tallest(u.children, m + 1);
      BuiltChild(u, us, m, y);
      PartAt(us, m, y);
      var uy := Part(us, m, y);
      if t.ILeaf? {
        NearAtMost(|us|, m + 1, |uy|, 1);
        BuiltKind(u.children[y], uy, m);
      } else {
        var x :| 0 <= x < |t.children| && LeafAt(t.children[x], d - 1);
        BuiltChild(t, es, m, x);
        PartAt(es, m, x);
        var tx := Part(es, m, x);
        NearGap(|es|, |us|, m + 1, |tx|, |uy|);
        HeightGap(t.children[x], tx, u.children[y], uy, m, d - 1);
      }
    }
  }

  /** The reported height is the level of the lowest leaf, and every leaf is there or one level above. */
  lemma HeightIsDeepest(t: ITree, es: seq<Entry>, m: nat)
    requires Built(t, es, m)
    ensures LeafAt(t, Height(t))
    ensures forall d: nat :: LeafAt(t, d) ==> Height(t) - 1 <= d <= Height(t)
  {
    DeepestLeaf(t, es, m);
    forall d: nat | LeafAt(t, d) ensures Height(t) - 1 <= d <= Height(t) {
      HeightGap(t, es, t, es, m, d);
      LeafNoDeeper(t, d);
    }
  }

  lemma {:induction false} LeafNoDeeper(t: ITree, d: nat)
    requires LeafAt(t, d)
    ensures d <= Height(t)
    decreases t
  {
    if t.INode? {
      var x :| 0 <= x < |t.children| && LeafAt(t.children[x], d - 1);
      LeafNoDeeper(t.children[x], d - 1);
      TallestIs(t.children, |t.children|);
    }
  }

  // ---------------------------------------------------------------- heights for the chosen node size

  lemma RootStep(n: nat, r: nat)
    requires r * r <= n / 4 < (r + 1) * (r + 1)
    ensures (2 * r) * (2 * r) <= n < (2 * r + 2) * (2 * r + 2)
  {
    assert (2 * r) * (2 * r) == 4 * (r * r);
    assert (2 * r + 2) * (2 * r + 2) == 4 * ((r + 1) * (r + 1));
  }

  /** The integer square root; (uint32_t)(sqrt((double)n) + 1) is this plus one for every 32-bit n. */
  function Isqrt(n: nat): (r: nat)
    ensures r * r <= n < (r + 1) * (r + 1)
  {
    if n == 0 then 0
    else
      var s := 2 * Isqrt(n / 4);
      RootStep(n, Isqrt(n / 4));
      if (s + 1) * (s + 1) <= n then s + 1 else s
  }

  /** max_elements for n keys: UDX_NODE_MIN_ELEMENTS and UDX_NODE_MAX_ELEMENTS are 64 and 8192. */
  function MaxElements(n: nat): nat {
    var m := Isqrt(n) + 1;
    if m < 64 then 64 else if m > 8192 then 8192 else m
  }

  /** The node capacity is the square root of the number of keys, rounded down, plus one, within 64 and 8192. */
  lemma CapacityIs(n: nat)
    ensures var m := MaxElements(n);
      64 <= m <= 8192 && (m > 64 ==> (m - 1) * (m - 1) <= n) && (m < 8192 ==> n < m * m)
  {
    hide Isqrt;
    var r := Isqrt(n);
    if r + 1 < 64 { SquareMonotone(r + 1, 64); }
  }

  /** Only one capacity meets that. */
  lemma CapacityUnique(n: nat, m: nat, k: nat)
    requires 64 <= m <= 8192 && (m > 64 ==> (m - 1) * (m - 1) <= n) && (m < 8192 ==> n < m * m)
    requires 64 <= k <= 8192 && (k > 64 ==> (k - 1) * (k - 1) <= n) && (k < 8192 ==> n < k * k)
    ensures m == k
  {
    if m < k { SquareMonotone(m, k - 1); }
    if k < m { SquareMonotone(k, m - 1); }
  }

  /** Every node of a tree has the same capacity m: m separators and m + 1 children, or at most m entries. */
  lemma {:induction false} EveryNode(t: ITree, es: seq<Entry>, m: nat, path: seq<nat>, u: ITree)
    requires Built(t, es, m) && Leads(t, path, u)
    ensures u.INode? ==> |u.keys| == m && |u.children| == m + 1
    ensures u.ILeaf? ==> |u.entries| <= m
    decreases |path|
  {
    hide Part;
    if path != [] { EveryNode(t.children[path[0]], Part(es, m, path[0]), m, path[1..], u); }
  }

  /** Two levels hold m * (m + 1) entries and no more. */
  lemma TwoLevels(t: ITree, es: seq<Entry>, m: nat)
    requires Built(t, es, m)
    ensures Height(t) <= 1 <==> |es| <= m
    ensures Height(t) <= 2 <==> |es| <= m * (m + 1)
  {
    hide Built, Near, Cut;
    BuiltKind(t, es, m);
    ScaleAtMost(m, 1, m + 1);
    if t.INode? {
      TallestIs(t.children, m + 1);
      if |es| <= m * (m + 1) { AllLow(t, es, m); }
      if Height(t) <= 2 {
        SmallParts(t, es, m, m + 1);
        PartAt(es, m, m);
      }
    }
  }

  lemma AllLow(t: ITree, es: seq<Entry>, m: nat)
    requires Built(t, es, m) && t.INode? && |es| <= m * (m + 1)
    ensures |t.children| == m + 1 && forall x :: 0 <= x <= m ==> Height(t.children[x]) == 1
  {
    hide Built, Near, Cut;
    BuiltKind(t, es, m);
    Commutes(m, m + 1);
    forall x | 0 <= x <= m ensures Height(t.children[x]) == 1 {
      BuiltChild(t, es, m, x);
      PartAt(es, m, x);
      NearAtMost(|es|, m + 1, |Part(es, m, x)|, m);
      BuiltKind(t.children[x], Part(es, m, x), m);
    }
  }

  lemma Commutes(a: nat, b: nat)
    ensures a * b == b * a
  {
  }

  lemma {:induction false} SmallParts(t: ITree, es: seq<Entry>, m: nat, i: nat)
    requires Built(t, es, m) && t.INode? && i <= m + 1
    requires forall x :: 0 <= x <= m ==> Height(t.children[x]) <= 1
    ensures Cut(|es|, m, i) <= m * i
  {
    hide Built, Near, Cut;
    BuiltKind(t, es, m);
    if i == 0 {
      PartAt(es, m, 0);
    } else {
      SmallParts(t, es, m, i - 1);
      BuiltChild(t, es, m, i - 1);
      BuiltKind(t.children[i - 1], Part(es, m, i - 1), m);
      PartAt(es, m, i - 1);
      assert m * i == m * (i - 1) + m;
    }
  }

  lemma SquareMonotone(a: nat, b: nat)
    requires a <= b
    ensures a * a <= b * b
  {
  }

  /** What the node size allows: a single leaf for up to 64 keys, two levels for up to 8192 * 8193. */
  lemma NodeSizes(n: nat)
    ensures n <= MaxElements(n) <==> n <= 64
    ensures n <= MaxElements(n) * (MaxElements(n) + 1) <==> n <= 67117056
    ensures n > 67117056 ==> MaxElements(n) == 8192
  {
    var r := Isqrt(n);
    if r + 1 < 64 {
      SquareMonotone(r + 1, 64);
    } else if r + 1 <= 8192 {
      MiddleSize(n, r);
    } else {
      SquareMonotone(8192, r);
    }
  }

  lemma MiddleSize(n: nat, r: nat)
    requires r * r <= n < (r + 1) * (r + 1) && 63 <= r <= 8191
    ensures n <= r + 1 <==> n <= 64
    ensures n <= (r + 1) * (r + 2) && n <= 67117056
  {
    assert (r + 1) * (r + 2) == (r + 1) * (r + 1) + (r + 1);
    SquareMonotone(r + 1, 8192);
    ScaleAtMost(r, 63, r);
    if r == 63 { assert n >= 3969; }
  }

  /** The height of the index for n keys, whatever the keys are. */
  lemma HeightBounds(t: ITree, es: seq<Entry>)
    requires Built(t, es, MaxElements(|es|))
    ensures Height(t) == 1 <==> |es| <= 64
    ensures Height(t) <= 2 <==> |es| <= 67117056
    ensures |es| < U32_LIMIT ==> Height(t) <= 3
  {
    hide Built, Near, Cut, MaxElements, Isqrt;
    var m := MaxElements(|es|);
    NodeSizes(|es|);
    TwoLevels(t, es, m);
    BuiltKind(t, es, m);
    if Height(t) > 2 && |es| < U32_LIMIT {
      assert m == 8192;
      TallestIs(t.children, m + 1);
      forall x | 0 <= x <= m ensures Height(t.children[x]) <= 2 {
        BuiltChild(t, es, m, x);
        PartAt(es, m, x);
        NearAtMost(|es|, m + 1, |Part(es, m, x)|, 67117056);
        TwoLevels(t.children[x], Part(es, m, x), m);
      }
    }
  }
}
