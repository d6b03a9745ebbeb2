// Which entries the index finds: the descent through the separators, and what lookup and
// prefix match make of the leaf it ends at.

module IndexLookups {
  import opened Bytes
  import opened Entries
  import opened IndexTrees

  // ---------------------------------------------------------------- choosing a child

  /** The number of leading separators that k has passed: those not above k, or with `left` those below k. */
  function Passed(keys: seq<CString>, k: Buffer, left: bool): (r: nat)
    ensures r <= |keys|
    ensures forall i :: 0 <= i < r ==> Beyond(keys[i], k, left)
    ensures r < |keys| ==> !Beyond(keys[r], k, left)
  {
    PassedFrom(keys, k, left, 0)
  }

  function PassedFrom(keys: seq<CString>, k: Buffer, left: bool, i: nat): (r: nat)
    requires i <= |keys|
    ensures i <= r <= |keys|
    ensures forall j :: i <= j < r ==> Beyond(keys[j], k, left)
    ensures r < |keys| ==> !Beyond(keys[r], k, left)
    decreases |keys| - i
  {
    if i == |keys| || !Beyond(keys[i], k, left) then i else PassedFrom(keys, k, left, i + 1)
  }

  /** Key k lies behind separator x. On equality the reader goes right; the complete variant, with `left`, does not. */
  predicate Beyond(x: Buffer, k: Buffer, left: bool) {
    if left then Less(x, k) else !Less(k, x)
  }

  /** The reader passes separators as long as they are at most k in strcmp order; the variant stops at k itself. */
  lemma PassedIff(keys: seq<CString>, k: Buffer, r: nat)
    ensures r == Passed(keys, k, false) <==>
      r <= |keys| && (forall i :: 0 <= i < r ==> Compare(keys[i], k) <= 0) && (r < |keys| ==> Compare(keys[r], k) > 0)
    ensures r == Passed(keys, k, true) <==>
      r <= |keys| && (forall i :: 0 <= i < r ==> Compare(keys[i], k) < 0) && (r < |keys| ==> Compare(keys[r], k) >= 0)
  {
    hide Less, Compare;
    forall i | 0 <= i < |keys| ensures Beyond(keys[i], k, false) <==> Compare(keys[i], k) <= 0 {}
    forall i | 0 <= i < |keys| ensures Beyond(keys[i], k, true) <==> Compare(keys[i], k) < 0 {}
  }

  /** Behind separator x is behind everything below x. */
  lemma BeyondDown(y: Buffer, x: Buffer, k: Buffer, left: bool)
    requires (y == x || Less(y, x)) && Beyond(x, k, left)
    ensures Beyond(y, k, left)
  {
    if y != x {
      if left { LessTransitive(y, x, k); }
      if !left && Less(k, y) { LessTransitive(k, y, x); }
    }
  }

  // ---------------------------------------------------------------- the descent

  /** The leaf a descent ends at, and how many leaves and entries lie before it. */
  datatype Spot = Spot(leaf: ITree, index: nat, at: nat)

  ghost function Landing(t: ITree, k: Buffer, left: bool): Spot
    decreases t
  {
    match t
    case ILeaf(_, _) => Spot(t, 0, 0)
    case INode(_, keys, children) =>
      if |children| != |keys| + 1 then Spot(t, 0, 0)
      else
        var i := Passed(keys, k, left);
        var s, before := Landing(children[i], k, left), LeavesTo(children, i);
        Spot(s.leaf, |before| + s.index, |Concat(before)| + s.at)
  }

  /** What the descent knows about its leaf: k is behind everything before it and not behind its last entry. */
  ghost predicate Lands(s: Spot, es: seq<Entry>, ls: seq<ITree>, k: Buffer, left: bool) {
    && s.index < |ls| && s.leaf == ls[s.index] && s.leaf.ILeaf?
    && s.at == |Concat(ls[..s.index])|
    && s.at + |s.leaf.entries| <= |es| && s.leaf.entries == es[s.at..s.at + |s.leaf.entries|]
    && (s.index + 1 == |ls| <==> s.at + |s.leaf.entries| == |es|)
    && (forall i :: 0 <= i < s.at ==> Beyond(es[i].key, k, left))
    && (s.index + 1 < |ls| ==> s.leaf.entries != [] && !Beyond(LastKey(s.leaf.entries), k, left))
  }

  lemma {:induction false} LandingOk(t: ITree, es: seq<Entry>, m: nat, k: Buffer, left: bool)
    requires Built(t, es, m) && Sorted(es) && es != []
    ensures Lands(Landing(t, k, left), es, Leaves(t), k, left)
    decreases t
  {
    hide Built, Cut, Near, Concat, Less;
    BuiltKind(t, es, m);
    LeavesHold(t, es, m);
    if t.ILeaf? {
      assert Leaves(t) == [t] && [t][..0] == [];
      ConcatNone();
      assert es == es[0..|es|];
    } else {
      var i := Passed(t.keys, k, left);
      BuiltChild(t, es, m, i);
      PartAt(es, m, i);
      var c, part := t.children[i], Part(es, m, i);
      LandingOk(c, part, m, k, left);
      LandingUp(t, es, m, k, left, i);
    }
  }

  lemma ConcatNone()
    ensures Concat([]) == []
  {
  }

  lemma LeavesStep(children: seq<ITree>, i: nat)
    requires i < |children|
    ensures LeavesTo(children, i + 1) == LeavesTo(children, i) + Leaves(children[i])
  {
  }

  /** The leaves of a node: those before child i, those of child i, those behind it. */
  lemma LeavesAround(t: ITree, es: seq<Entry>, m: nat, i: nat) returns (rest: seq<ITree>)
    requires Built(t, es, m) && t.INode? && i <= m
    ensures |t.children| == m + 1 && Leaves(t) == LeavesTo(t.children, i) + Leaves(t.children[i]) + rest
    ensures rest == [] <==> i == m
    decreases m - i
  {
    hide Cut, Near, Built, Concat;
    BuiltKind(t, es, m);
    LeavesStep(t.children, i);
    if i == m {
      rest := [];
      assert Leaves(t) == LeavesTo(t.children, m + 1);
      assert LeavesTo(t.children, m + 1) == LeavesTo(t.children, m) + Leaves(t.children[m]) + rest;
    } else {
      hide Leaves, LeavesTo;
      var more := LeavesAround(t, es, m, i + 1);
      BuiltChild(t, es, m, i + 1);
      LeavesHold(t.children[i + 1], Part(es, m, i + 1), m);
      rest := Leaves(t.children[i + 1]) + more;
      var a, b := LeavesTo(t.children, i), Leaves(t.children[i]);
      assert a + b + Leaves(t.children[i + 1]) + more == a + b + rest;
    }
  }

  lemma BehindParts(t: ITree, es: seq<Entry>, m: nat, k: Buffer, left: bool, i: nat, x: nat)
    requires Built(t, es, m) && Sorted(es) && t.INode? && i == Passed(t.keys, k, left) && i <= m < |es|
    requires x < Cut(|es|, m, i) <= |es|
    ensures Beyond(es[x].key, k, left)
  {
    hide Built, Cut, Near, Beyond, Less;
    BuiltKind(t, es, m);
    if i == 0 {
      PartAt(es, m, 0);
    } else {
      BuiltChild(t, es, m, i - 1);
      PartAt(es, m, i - 1);
      var a := Cut(|es|, m, i);
      assert LastKey(Part(es, m, i - 1)) == es[a - 1].key;
      BeyondDown(es[x].key, es[a - 1].key, k, left);
    }
  }

  lemma LandingNode(t: ITree, k: Buffer, left: bool, i: nat)
    requires t.INode? && |t.children| == |t.keys| + 1 && i == Passed(t.keys, k, left)
    ensures var s, before := Landing(t.children[i], k, left), LeavesTo(t.children, i);
      Landing(t, k, left) == Spot(s.leaf, |before| + s.index, |Concat(before)| + s.at)
  {
    hide Passed, LeavesTo, Concat;
  }

  lemma SpotOfConcat(a: seq<ITree>, b: seq<ITree>, c: seq<ITree>, i: nat)
    requires i < |b|
    ensures (a + b + c)[|a| + i] == b[i] && (a + b + c)[..|a| + i] == a + b[..i]
  {
  }

  lemma LandingUp(t: ITree, es: seq<Entry>, m: nat, k: Buffer, left: bool, i: nat)
    requires Built(t, es, m) && Sorted(es) && t.INode? && i == Passed(t.keys, k, left) && i <= m
    requires |t.children| == m + 1 && |t.keys| == m < |es|
    requires Lands(Landing(t.children[i], k, left), Part(es, m, i), Leaves(t.children[i]), k, left)
    ensures Lands(Landing(t, k, left), es, Leaves(t), k, left)
  {
    hide Built, Cut, Near, Concat, Beyond, LeavesTo, Leaves, Sorted, Passed, Landing;
    LandingEnds(t, es, m, k, left, i);
    var rest := LeavesAround(t, es, m, i);
    LeavesToHold(t, es, m, i);
    BuiltChild(t, es, m, i);
    PartAt(es, m, i);
    var before, mid := LeavesTo(t.children, i), Leaves(t.children[i]);
    var s, ls := Landing(t.children[i], k, left), before + mid + rest;
    var u := Landing(t, k, left);
    LandingNode(t, k, left, i);
    SpotOfConcat(before, mid, rest, s.index);
    ConcatAppend(before, mid[..s.index]);
    SliceOfSlice(es, Cut(|es|, m, i), |Part(es, m, i)|, s.at, |s.leaf.entries|);
    LandingBehind(t, es, m, k, left, i);
  }

  /** Everything before the leaf lies behind the key. */
  lemma LandingBehind(t: ITree, es: seq<Entry>, m: nat, k: Buffer, left: bool, i: nat)
    requires Built(t, es, m) && Sorted(es) && t.INode? && i == Passed(t.keys, k, left) && i <= m
    requires |t.children| == m + 1 && |t.keys| == m < |es|
    requires Lands(Landing(t.children[i], k, left), Part(es, m, i), Leaves(t.children[i]), k, left)
    ensures var end := Cut(|es|, m, i) + Landing(t.children[i], k, left).at;
      end <= |es| && forall x :: 0 <= x < end ==> Beyond(es[x].key, k, left)
  {
    hide Built, Cut, Near, Concat, Beyond, LeavesTo, Leaves, Passed, Sorted, Landing;
    BuiltKind(t, es, m);
    PartAt(es, m, i);
    var a, s := Cut(|es|, m, i), Landing(t.children[i], k, left);
    forall x | 0 <= x < a + s.at ensures Beyond(es[x].key, k, left) {
      if x >= a {
        assert Part(es, m, i)[x - a] == es[x];
      } else {
        BehindParts(t, es, m, k, left, i, x);
      }
    }
  }

  /** Whether the leaf of child i that a descent ends at is the final one. */
  lemma LandingEnds(t: ITree, es: seq<Entry>, m: nat, k: Buffer, left: bool, i: nat)
    requires Built(t, es, m) && Sorted(es) && t.INode? && i == Passed(t.keys, k, left) && i <= m
    requires |t.children| == m + 1 && |t.keys| == m < |es|
    requires Lands(Landing(t.children[i], k, left), Part(es, m, i), Leaves(t.children[i]), k, left)
    ensures var s, n, last := Landing(t.children[i], k, left), |Leaves(t.children[i])|, Cut(|es|, m, i + 1);
      && (i < m ==> last < |es|) && (i == m ==> last == |es|)
      && (i < m || s.index + 1 < n ==> s.leaf.entries != [] && !Beyond(LastKey(s.leaf.entries), k, left))
  {
    hide Built, Cut, Near, Concat, Beyond, LeavesTo, Leaves;
    BuiltKind(t, es, m);
    PartAt(es, m, i);
    if i == m {
      PartAt(es, m, m);
    } else {
      PartAt(es, m, i + 1);
      var s := Landing(t.children[i], k, left);
      if s.index + 1 == |Leaves(t.children[i])| { LastOfPart(t, es, m, i, s); }
    }
  }

  /** The last leaf of a child ends with the separator behind that child. */
  lemma LastOfPart(t: ITree, es: seq<Entry>, m: nat, i: nat, s: Spot)
    requires Built(t, es, m) && t.INode? && i <= m && |t.children| == m + 1 && |t.keys| == m < |es|
    requires s.leaf.ILeaf? && s.index + 1 == |Leaves(t.children[i])| && s.leaf == Leaves(t.children[i])[s.index]
    ensures i < m ==> s.leaf.entries != [] && LastKey(s.leaf.entries) == t.keys[i]
  {
    hide Cut, Near, Concat, Leaves;
    BuiltChild(t, es, m, i);
    LastLeaf(t.children[i], Part(es, m, i), m);
  }

  // ---------------------------------------------------------------- separators as positions

  /** Separator j is the key of the last entry of leaf j. */
  lemma SeparatorAt(t: ITree, es: seq<Entry>, m: nat, j: nat)
    requires Built(t, es, m) && es != [] && j + 1 < |Leaves(t)|
    ensures |Seps(t)| + 1 == |Leaves(t)|
    ensures var b := |Concat(Leaves(t)[..j + 1])|; 0 < b < |es| && Seps(t)[j] == es[b - 1].key
    ensures |Concat(Leaves(t)[..j])| < |Concat(Leaves(t)[..j + 1])|
  {
    hide Built, Concat, Seps, Leaves;
    var ls := Leaves(t);
    LeavesHold(t, es, m);
    SeparatorsAreLastKeys(t, es, m);
    LeafSpan(ls, j);
    LeafSpan(ls, j + 1);
    assert ls[..|ls| - 1][j] == ls[j];
  }

  /** The separators are strictly increasing: each of them occurs once. */
  lemma SeparatorsIncrease(t: ITree, es: seq<Entry>, m: nat, i: nat, j: nat)
    requires Built(t, es, m) && Sorted(es) && i < j < |Seps(t)|
    ensures es != [] && Less(Seps(t)[i], Seps(t)[j])
  {
    hide Built, Concat, Seps, Leaves, Less;
    BuiltKind(t, es, m);
    SepsNeedNode(t);
    SeparatorsAreLastKeys(t, es, m);
    SeparatorAt(t, es, m, i);
    SeparatorAt(t, es, m, j);
    SpansMonotone(Leaves(t), i + 1, j);
  }

  lemma SepsNeedNode(t: ITree)
    ensures Seps(t) != [] ==> t.INode?
  {
  }

  /** Landing right of k with k stored in front of the leaf: k is a separator. */
  lemma JustBefore(t: ITree, es: seq<Entry>, m: nat, k: Buffer)
    requires Built(t, es, m) && Sorted(es) && es != []
    requires var s := Landing(t, k, false); 0 < s.at <= |es| && es[s.at - 1].key == k
    ensures k in Seps(t) && Rank(es, k) == Landing(t, k, false).at - 1
    ensures var l := Landing(t, k, false).leaf; l.ILeaf? && Rank(l.entries, k) == 0
  {
    hide Built, Concat, Seps, Leaves, Landing, Less;
    LandingOk(t, es, m, k, false);
    var s, ls := Landing(t, k, false), Leaves(t);
    if s.index == 0 { assert ls[..0] == []; ConcatNone(); }
    SeparatorAt(t, es, m, s.index - 1);
    HasIff(es, k);
    forall i | s.at <= i < |es| ensures !Less(es[i].key, k) {
      LessAsymmetric(k, es[i].key);
    }
    RankIs(s.leaf.entries, k, 0);
  }

  /** A key inside the leaf it leads to is not a separator. */
  lemma InsideNoSeparator(t: ITree, es: seq<Entry>, m: nat, k: Buffer, p: nat)
    requires Built(t, es, m) && Sorted(es) && es != []
    requires var s := Landing(t, k, false);
      s.leaf.ILeaf? && s.at <= p < s.at + |s.leaf.entries| && p < |es| && es[p].key == k
    ensures k !in Seps(t)
  {
    hide Built, Concat, Seps, Leaves, Landing, Less;
    LandingOk(t, es, m, k, false);
    var s, ls := Landing(t, k, false), Leaves(t);
    LeavesHold(t, es, m);
    SeparatorsAreLastKeys(t, es, m);
    if k in Seps(t) {
      var j: nat :| j < |Seps(t)| && Seps(t)[j] == k;
      SeparatorAt(t, es, m, j);
      HasIff(es, k);
      assert |Concat(ls[..j + 1])| == p + 1;
      LeafSpan(ls, s.index);
      if j < s.index {
        SpansMonotone(ls, j + 1, s.index);
      } else if s.index < j {
        SpansMonotone(ls, s.index + 1, j);
      } else {
        LessIrreflexive(k);
      }
    }
  }

  /** Where the lower bound inside the leaf lies among all entries. */
  lemma LandingRank(t: ITree, es: seq<Entry>, m: nat, k: Buffer)
    requires Built(t, es, m) && Sorted(es) && es != []
    ensures var s := Landing(t, k, false);
      && s.leaf.ILeaf? && s.at + Rank(s.leaf.entries, k) == Rank(es, k) + (if k in Seps(t) then 1 else 0)
      && (k in Seps(t) ==> Has(es, k))
      && s.at + |s.leaf.entries| <= |es| && s.leaf.entries == es[s.at..s.at + |s.leaf.entries|]
      && (Rank(s.leaf.entries, k) == |s.leaf.entries| ==> s.at + |s.leaf.entries| == |es|)
      && (Has(s.leaf.entries, k) <==> Has(es, k) && k !in Seps(t))
  {
    hide Built, Concat, Seps, Leaves, Landing, Less;
    LandingOk(t, es, m, k, false);
    SeparatorsStored(t, es, m, k);
    var s, r := Landing(t, k, false), Rank(es, k);
    HasIff(es, k);
    if s.at > 0 && es[s.at - 1].key == k {
      JustBefore(t, es, m, k);
      LessIrreflexive(k);
    } else {
      LandingRankInside(t, es, m, k);
      if k in Seps(t) { InsideNoSeparator(t, es, m, k, r); }
    }
  }

  lemma SeparatorsStored(t: ITree, es: seq<Entry>, m: nat, k: Buffer)
    requires Built(t, es, m) && Sorted(es) && es != []
    ensures k in Seps(t) ==> Has(es, k)
  {
    hide Built, Concat, Seps, Leaves;
    SeparatorsAreLastKeys(t, es, m);
    if k in Seps(t) {
      var j: nat :| j < |Seps(t)| && Seps(t)[j] == k;
      SeparatorAt(t, es, m, j);
      HasIff(es, k);
    }
  }

  /** When k is not just in front of the leaf, its rank lies inside the leaf. */
  lemma LandingRankInside(t: ITree, es: seq<Entry>, m: nat, k: Buffer)
    requires Built(t, es, m) && Sorted(es) && es != []
    requires var s := Landing(t, k, false); 0 < s.at <= |es| ==> es[s.at - 1].key != k
    ensures var s, r := Landing(t, k, false), Rank(es, k);
      && s.leaf.ILeaf? && s.at <= r <= s.at + |s.leaf.entries| <= |es| && Rank(s.leaf.entries, k) == r - s.at
      && (r == s.at + |s.leaf.entries| ==> r == |es|)
  {
    hide Built, Concat, Seps, Leaves, Landing, Less;
    LandingOk(t, es, m, k, false);
    var s, r := Landing(t, k, false), Rank(es, k);
    var n := |s.leaf.entries|;
    if s.at > 0 {
      LessTotal(k, es[s.at - 1].key);
      forall i | 0 <= i < s.at ensures Less(es[i].key, k) {
        if i < s.at - 1 { LessTransitive(es[i].key, es[s.at - 1].key, k); }
      }
    }
    if s.at + n < |es| {
      assert s.leaf.entries[n - 1] == es[s.at + n - 1];
      assert Less(k, es[s.at + n - 1].key);
      LessAsymmetric(k, es[s.at + n - 1].key);
    }
    RankIs(s.leaf.entries, k, r - s.at);
  }

  // ---------------------------------------------------------------- exact lookup

  /** The entry that exact lookup returns. */
  ghost function Found(t: ITree, k: Buffer, left: bool): Option<Entry> {
    var l := Landing(t, k, left).leaf;
    if l.ILeaf? && Has(l.entries, k) then Some(l.entries[Rank(l.entries, k)]) else None
  }

  /** Exact lookup is sound, and finds a stored key if and only if it is not a separator,
      that is, not the last key of a leaf other than the final one. */
  lemma LookupExact(t: ITree, es: seq<Entry>, m: nat, k: Buffer)
    requires Built(t, es, m) && Sorted(es) && es != []
    ensures Found(t, k, false) == if Has(es, k) && k !in Seps(t) then Some(es[Rank(es, k)]) else None
  {
    hide Built, Seps, Landing;
    LandingRank(t, es, m, k);
  }

  /** The variant that goes to the left of an equal separator finds every stored key. */
  lemma LookupComplete(t: ITree, es: seq<Entry>, m: nat, k: Buffer)
    requires Built(t, es, m) && Sorted(es) && es != []
    ensures Found(t, k, true) == if Has(es, k) then Some(es[Rank(es, k)]) else None
  {
    hide Built, Concat, Seps, Leaves, Landing;
    LandingOk(t, es, m, k, true);
    var s, r := Landing(t, k, true), Rank(es, k);
    var l := s.leaf.entries;
    if s.index + 1 < |Leaves(t)| { assert l[|l| - 1] == es[s.at + |l| - 1]; }
    RankIs(l, k, r - s.at);
  }

  /** The positions of the last entries of the first j leaves. */
  ghost function LastPositions(ls: seq<ITree>, j: nat): set<int>
    requires j <= |ls|
  {
    if j == 0 then {} else LastPositions(ls, j - 1) + {|Concat(ls[..j])| - 1}
  }

  lemma {:induction false} LastPositionsAre(t: ITree, es: seq<Entry>, m: nat, j: nat)
    requires Built(t, es, m) && es != [] && j < |Leaves(t)|
    ensures var p := LastPositions(Leaves(t), j);
      && |p| == j
      && (forall i :: i in p ==> 0 <= i < |Concat(Leaves(t)[..j])| && i < |es| && es[i].key in Seps(t))
      && (forall x :: 0 <= x < j && x < |Seps(t)| ==> exists i :: i in p && 0 <= i < |es| && es[i].key == Seps(t)[x])
  {
    hide Built, Concat, Seps, Leaves;
    if j > 0 {
      LastPositionsAre(t, es, m, j - 1);
      SeparatorAt(t, es, m, j - 1);
      SpansMonotone(Leaves(t), j - 1, j);
      var i := |Concat(Leaves(t)[..j])| - 1;
      assert i in LastPositions(Leaves(t), j) && es[i].key == Seps(t)[j - 1];
    }
  }

  /** How many stored keys exact lookup misses: one for every leaf but the final one. */
  lemma MissedKeys(t: ITree, es: seq<Entry>, m: nat)
    requires Built(t, es, m) && Sorted(es) && es != []
    ensures |set i | 0 <= i < |es| && Found(t, es[i].key, false).None?| + 1 == |Leaves(t)|
  {
    hide Built, Concat, Seps, Leaves, Found, LastPositions;
    var missed := set i | 0 <= i < |es| && Found(t, es[i].key, false).None?;
    SeparatorsAreLastKeys(t, es, m);
    var n := |Leaves(t)| - 1;
    var p := LastPositions(Leaves(t), n);
    LastPositionsAre(t, es, m, n);
    forall i | 0 <= i < |es| ensures i in missed <==> i in p {
      var k := es[i].key;
      HasIff(es, k);
      LookupExact(t, es, m, k);
      if k in Seps(t) {
        var x :| 0 <= x < |Seps(t)| && Seps(t)[x] == k;
        var y :| y in p && 0 <= y < |es| && es[y].key == Seps(t)[x];
        assert y == i;
      }
    }
    assert missed == p;
  }

  /** The leaves of a tree of two levels. */
  lemma {:induction false} LowLeaves(t: ITree, es: seq<Entry>, m: nat, i: nat)
    requires Built(t, es, m) && t.INode? && |es| <= m * (m + 1) && i <= m + 1
    ensures |t.children| == m + 1 && |LeavesTo(t.children, i)| == i
  {
    hide Built, Near, Cut, Height;
    AllLow(t, es, m);
    if i > 0 {
      LowLeaves(t, es, m, i - 1);
      BuiltChild(t, es, m, i - 1);
      BuiltKind(t.children[i - 1], Part(es, m, i - 1), m);
      HeightOne(t.children[i - 1]);
    }
  }

  lemma HeightOne(t: ITree)
    requires Height(t) == 1
    ensures |Leaves(t)| == 1 || (t.INode? && t.children == [])
  {
    if t.INode? && t.children != [] { TallestIs(t.children, |t.children|); }
  }

  /** Of up to 67117056 keys exact lookup misses none when there are 64 or fewer, and otherwise as many as the square
      root of their number, rounded down, plus one, within 64 and 8192. */
  lemma MissedCount(t: ITree, es: seq<Entry>)
    requires Built(t, es, MaxElements(|es|)) && Sorted(es) && 0 < |es| <= 67117056
    ensures var c := |set i | 0 <= i < |es| && Found(t, es[i].key, false).None?|;
      if |es| <= 64 then c == 0
      else 64 <= c <= 8192 && (c > 64 ==> (c - 1) * (c - 1) <= |es|) && (c < 8192 ==> |es| < c * c)
  {
    hide Built, Found, MaxElements, Less;
    var m := MaxElements(|es|);
    MissedKeys(t, es, m);
    NodeSizes(|es|);
    CapacityIs(|es|);
    BuiltKind(t, es, m);
    if t.INode? {
      LowLeaves(t, es, m, m + 1);
    }
  }

  /** Sixty-five keys make sixty-five leaves of one entry, and only the greatest key is found. */
  lemma SixtyFive(t: ITree, es: seq<Entry>, i: nat)
    requires Built(t, es, MaxElements(|es|)) && Sorted(es) && |es| == 65 && i < 65
    ensures |Leaves(t)| == 65
    ensures Found(t, es[i].key, false) == if i == 64 then Some(es[i]) else None
  {
    hide Built, Seps, Leaves, Found, Less;
    assert MaxElements(65) == 64 by { SixtyFour(); }
    SmallLeaves(t, es, 64);
    var k := es[i].key;
    HasIff(es, k);
    LookupExact(t, es, 64, k);
    SeparatorsAreLastKeys(t, es, 64);
    if i < 64 {
      SeparatorAt(t, es, 64, i);
      OneEach(t, es, i + 1);
    } else if k in Seps(t) {
      var j: nat :| j < |Seps(t)| && Seps(t)[j] == k;
      SeparatorAt(t, es, 64, j);
    }
  }

  lemma SixtyFour()
    ensures MaxElements(65) == 64
  {
    if Isqrt(65) >= 9 { SquareMonotone(9, Isqrt(65)); }
  }

  /** A node over one entry more than fits a leaf: every child is a leaf of one entry. */
  lemma SmallLeaves(t: ITree, es: seq<Entry>, m: nat)
    requires Built(t, es, m) && |es| == m + 1
    ensures |Leaves(t)| == |es| && AllLeaves(Leaves(t)) && forall j :: 0 <= j < |es| ==> |Leaves(t)[j].entries| == 1
    ensures Concat(Leaves(t)) == es
  {
    hide Built, Near, Cut;
    BuiltKind(t, es, m);
    LeavesHold(t, es, m);
    SmallLeavesTo(t, es, m, m + 1);
  }

  lemma {:induction false} SmallLeavesTo(t: ITree, es: seq<Entry>, m: nat, i: nat)
    requires Built(t, es, m) && |es| == m + 1 && t.INode? && i <= m + 1 == |t.children|
    ensures var ls := LeavesTo(t.children, i);
      |ls| == i && forall j :: 0 <= j < i ==> ls[j].ILeaf? && |ls[j].entries| == 1
  {
    hide Built, Near, Cut;
    BuiltKind(t, es, m);
    if i > 0 {
      SmallLeavesTo(t, es, m, i - 1);
      BuiltChild(t, es, m, i - 1);
      PartAt(es, m, i - 1);
      NearAtMost(|es|, m + 1, |Part(es, m, i - 1)|, 1);
      BuiltKind(t.children[i - 1], Part(es, m, i - 1), m);
    }
  }

  lemma {:induction false} OneEach(t: ITree, es: seq<Entry>, i: nat)
    requires |Leaves(t)| == |es| && AllLeaves(Leaves(t)) && i <= |es|
    requires forall j :: 0 <= j < |es| ==> |Leaves(t)[j].entries| == 1
    ensures |Concat(Leaves(t)[..i])| == i
  {
    hide Leaves;
    if i > 0 {
      OneEach(t, es, i - 1);
      assert Leaves(t)[..i][..i - 1] == Leaves(t)[..i - 1];
    }
  }

  // ---------------------------------------------------------------- prefix match

  /** e is wanted for prefix p; with `skip` the entry equal to p is not. */
  predicate Wanted(e: Entry, p: Buffer, skip: bool) {
    HasPrefix(e.key, p) && !(skip && e.key == p)
  }

  /** All wanted entries, in order. */
  ghost function Filter(es: seq<Entry>, p: Buffer, skip: bool): seq<Entry> {
    if es == [] then []
    else Filter(es[..|es| - 1], p, skip) + if Wanted(es[|es| - 1], p, skip) then [es[|es| - 1]] else []
  }

  /** The first `limit` of them; 0 stands for no limit. */
  ghost function Limited(s: seq<Entry>, limit: nat): seq<Entry> {
    if limit == 0 || |s| <= limit then s else s[..limit]
  }

  lemma {:induction false} FilterAppend(a: seq<Entry>, b: seq<Entry>, p: Buffer, skip: bool)
    ensures Filter(a + b, p, skip) == Filter(a, p, skip) + Filter(b, p, skip)
  {
    if b == [] {
      assert a + b == a;
    } else {
      FilterAppend(a, b[..|b| - 1], p, skip);
      assert (a + b)[..|a + b| - 1] == a + b[..|b| - 1];
    }
  }

  lemma {:induction false} FilterUniform(s: seq<Entry>, p: Buffer, skip: bool, all: bool)
    requires forall i :: 0 <= i < |s| ==> Wanted(s[i], p, skip) == all
    ensures Filter(s, p, skip) == if all then s else []
  {
    if s != [] { FilterUniform(s[..|s| - 1], p, skip, all); }
  }

  lemma {:induction false} FilterMembers(es: seq<Entry>, p: Buffer, skip: bool, x: Entry)
    ensures x in Filter(es, p, skip) <==> x in es && Wanted(x, p, skip)
  {
    hide Wanted;
    if es != [] {
      FilterMembers(es[..|es| - 1], p, skip, x);
      assert es == es[..|es| - 1] + [es[|es| - 1]];
    }
  }

  lemma {:induction false} FilterSorted(es: seq<Entry>, p: Buffer, skip: bool)
    requires Sorted(es)
    ensures Sorted(Filter(es, p, skip))
  {
    hide Wanted, Less;
    if es != [] {
      var n := |es| - 1;
      FilterSorted(es[..n], p, skip);
      forall i | 0 <= i < |Filter(es[..n], p, skip)| ensures Less(Filter(es[..n], p, skip)[i].key, es[n].key) {
        FilterMembers(es[..n], p, skip, Filter(es[..n], p, skip)[i]);
      }
    }
  }

  /** The limited list in plain words: in strcmp order, only stored entries whose key is the prefix with something
      behind it, no more than the limit, and none of these left out unless the limit is used up by smaller ones. */
  lemma MatchMeans(es: seq<Entry>, p: Buffer, skip: bool, limit: nat, r: seq<Entry>)
    requires Sorted(es) && r == Limited(Filter(es, p, skip), limit)
    ensures forall i, j :: 0 <= i < j < |r| ==> Compare(r[i].key, r[j].key) < 0
    ensures limit > 0 ==> |r| <= limit
    ensures forall e :: e in r ==> e in es && exists t: Buffer :: e.key == p + t && (skip ==> t != [])
    ensures forall e, t: Buffer :: e in es && e.key == p + t && (skip ==> t != []) ==>
      e in r || (0 < limit == |r| && forall x :: x in r ==> Compare(x.key, e.key) < 0)
  {
    hide Less, Filter, Compare;
    var all := Filter(es, p, skip);
    FilterSorted(es, p, skip);
    forall e | e in r ensures e in es && exists t: Buffer :: e.key == p + t && (skip ==> t != []) {
      FilterMembers(es, p, skip, e);
      assert e.key == p + e.key[|p|..];
    }
    forall e, t: Buffer | e in es && e.key == p + t && (skip ==> t != [])
      ensures e in r || (0 < limit == |r| && forall x :: x in r ==> Compare(x.key, e.key) < 0)
    {
      FilterMembers(es, p, skip, e);
      if e !in r { LeftOut(all, limit, e); }
    }
  }

  lemma LeftOut(all: seq<Entry>, limit: nat, e: Entry)
    requires Sorted(all) && e in all && e !in Limited(all, limit)
    ensures 0 < limit == |Limited(all, limit)| && forall x :: x in Limited(all, limit) ==> Compare(x.key, e.key) < 0
  {
    hide Less, Compare;
    var k :| 0 <= k < |all| && all[k] == e;
    var r := Limited(all, limit);
    assert forall j :: 0 <= j < |r| ==> r[j] == all[j];
  }

  /** A run of matches that begins at the lower bound of the prefix, behind the prefix itself when that is skipped. */
  ghost predicate MatchRun(es: seq<Entry>, p: Buffer, skip: bool, b: nat, e: nat) {
    && (skip ==> Has(es, p)) && b == Rank(es, p) + (if skip then 1 else 0)
    && b <= e <= |es| && forall i :: b <= i < e ==> HasPrefix(es[i].key, p)
  }

  /** A run that stops at the end, at a mismatch or at the limit is the limited list of all wanted entries. */
  lemma RunIsMatch(es: seq<Entry>, p: Buffer, skip: bool, limit: nat, b: nat, e: nat)
    requires Sorted(es) && MatchRun(es, p, skip, b, e)
    requires limit > 0 ==> e - b <= limit
    requires e == |es| || !HasPrefix(es[e].key, p) || (limit > 0 && e - b == limit)
    ensures es[b..e] == Limited(Filter(es, p, skip), limit)
  {
    hide Less, Rank;
    if e < |es| && HasPrefix(es[e].key, p) {
      var f := RunEnd(es, p, e);
      RunIsFilter(es, p, skip, b, f);
      assert es[b..f][..limit] == es[b..e];
    } else {
      RunIsFilter(es, p, skip, b, e);
    }
  }

  lemma RunEnd(es: seq<Entry>, p: Buffer, e: nat) returns (f: nat)
    requires e <= |es|
    ensures e <= f <= |es| && (forall i :: e <= i < f ==> HasPrefix(es[i].key, p))
    ensures f < |es| ==> !HasPrefix(es[f].key, p)
    decreases |es| - e
  {
    if e == |es| || !HasPrefix(es[e].key, p) { f := e; } else { f := RunEnd(es, p, e + 1); }
  }

  lemma RunIsFilter(es: seq<Entry>, p: Buffer, skip: bool, b: nat, e: nat)
    requires Sorted(es) && MatchRun(es, p, skip, b, e) && (e < |es| ==> !HasPrefix(es[e].key, p))
    ensures es[b..e] == Filter(es, p, skip)
  {
    hide Less, HasPrefix, Rank, Sorted, Wanted, Filter;
    var x, y, z := es[..b], es[b..e], es[e..];
    assert es == x + y + z;
    FilterAppend(x + y, z, p, skip);
    FilterAppend(x, y, p, skip);
    RunParts(es, p, skip, b, e);
    FilterUniform(x, p, skip, false);
    forall i | 0 <= i < |y| ensures Wanted(y[i], p, skip) { assert y[i] == es[b + i]; }
    FilterUniform(y, p, skip, true);
    forall i | 0 <= i < |z| ensures !Wanted(z[i], p, skip) { assert z[i] == es[e + i]; }
    FilterUniform(z, p, skip, false);
  }

  lemma RunParts(es: seq<Entry>, p: Buffer, skip: bool, b: nat, e: nat)
    requires Sorted(es) && MatchRun(es, p, skip, b, e) && (e < |es| ==> !HasPrefix(es[e].key, p))
    ensures forall i :: 0 <= i < b ==> !Wanted(es[i], p, skip)
    ensures forall i :: b <= i < e ==> Wanted(es[i], p, skip)
    ensures forall i :: e <= i < |es| ==> !Wanted(es[i], p, skip)
  {
    hide Less, HasPrefix, Rank;
    HasIff(es, p);
    forall i | 0 <= i < b ensures !Wanted(es[i], p, skip) {
      if HasPrefix(es[i].key, p) { PrefixNotLess(p, es[i].key); }
    }
    forall i | e <= i < |es| ensures !HasPrefix(es[i].key, p) {
      if i > e && HasPrefix(es[i].key, p) {
        NotBelow(es, p, e);
        PrefixConvex(p, es[e].key, es[i].key);
      }
    }
  }

  lemma NotBelow(es: seq<Entry>, p: Buffer, i: nat)
    requires Sorted(es) && Rank(es, p) <= i < |es|
    ensures !Less(es[i].key, p)
  {
    if Less(es[i].key, p) && i > Rank(es, p) { LessTransitive(es[Rank(es, p)].key, es[i].key, p); }
  }
}
