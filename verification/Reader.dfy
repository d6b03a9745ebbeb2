// Reading the index: nodes, exact lookup, prefix match and the walk along the leaf chain.

module Readers {
  import opened Bytes
  import opened Entries
  import opened Files
  import opened EntryFormat
  import opened IndexTrees
  import opened IndexLookups
  import opened IndexImages
  import opened NodeSearches
  import opened IndexStores
  import opened Folding

  datatype Status = UdxOk | UdxNotFound | UdxDone | ErrFormat | ErrIo

  // ---------------------------------------------------------------- nodes

  /** What read_index_node accepts at an offset, whatever the file holds. */
  function NodeAt(c: Codec, b: Buffer, off: nat): (r: Option<Buffer>)
    ensures r.Some? ==> r.value != [] && (r.value[0] == 1 || r.value[0] == 2)
  {
    if off == 0 || off >= OFFSET_LIMIT || off + 8 > |b| then None
    else
      var u, z := D32(b[off..off + 4]), D32(b[off + 4..off + 8]);
      if u == 0 || u > NODE_MAX_SIZE || z == 0 || z > NODE_MAX_SIZE || off + 8 + z > |b| then None
      else
        match Inflated(c, b[off + 8..off + 8 + z], u)
        case None => None
        case Some(d) => if d[0] == 1 || d[0] == 2 then Some(d) else None
  }

  /** What has to lie at an offset for the reader to accept it as a node with data d. */
  lemma NodeAtIff(c: Codec, b: Buffer, off: nat, d: Buffer)
    ensures NodeAt(c, b, off) == Some(d) <==>
      && 0 < off < 0x8000_0000_0000_0000 && off + 8 <= |b|
      && var u, z := D32(b[off..off + 4]), D32(b[off + 4..off + 8]);
         && 1 <= u <= 1048576 && 1 <= z <= 1048576 && off + 8 + z <= |b|
         && c.decompress(b[off + 8..off + 8 + z]) == Some(d) && |d| == u && (d[0] == 1 || d[0] == 2)
  {
    hide D32;
  }

  /** Where the block at an offset ends. */
  function NodeEnd(b: Buffer, off: nat): nat
    requires off + 8 <= |b|
  {
    off + 8 + D32(b[off + 4..off + 8])
  }

  /** read_index_node */
  method ReadIndexNode(c: Codec, file: File, off: u64) returns (node: Option<Buffer>)
    modifies file`pos
    ensures node == NodeAt(c, file.bytes, off)
    ensures node.Some? ==> off + 8 <= |file.bytes| && file.pos == NodeEnd(file.bytes, off)
  {
    hide D32;
    if off == 0 {
      return None;
    }
    var ok := file.Seek(off);
    if !ok {
      return None;
    }
    var u, z;
    ok, u := file.Read(4);
    if !ok {
      return None;
    }
    ok, z := file.Read(4);
    if !ok {
      return None;
    }
    var size, compressed := D32(u), D32(z);
    if size == 0 || size > NODE_MAX_SIZE || compressed == 0 || compressed > NODE_MAX_SIZE {
      return None;
    }
    var src;
    ok, src := file.Read(compressed);
    if !ok {
      return None;
    }
    match Inflated(c, src, size) {
      case None => node := None;
      case Some(data) => node := if data[0] != 1 && data[0] != 2 then None else Some(data);
    }
  }

  /** read_next_leaf */
  method ReadNextLeaf(file: File) returns (ok: bool, next: nat)
    modifies file`pos
    ensures ok <==> old(file.pos) + 8 <= |file.bytes|
    ensures ok ==> next == D64(file.bytes[old(file.pos)..old(file.pos) + 8])
  {
    var d;
    ok, d := file.Read(8);
    next := if ok then D64(d) else 0;
  }

  lemma DataKind(t: ITree)
    ensures DataOf(t) != [] && DataOf(t)[0] == if t.ILeaf? then 2 else 1
  {
  }

  /** A stored node is read back if and only if it is within the size the reader accepts. */
  lemma BlockRead(c: Codec, b: Buffer, t: ITree)
    requires Lawful(c) && At(b, t.off, Block(c, DataOf(t))) && Sized(c, DataOf(t)) && 0 < t.off < OFFSET_LIMIT
    ensures NodeAt(c, b, t.off) == if Legible(c, t) then Some(DataOf(t)) else None
    ensures t.off + 8 <= |b| && NodeEnd(b, t.off) == t.off + |Block(c, DataOf(t))|
  {
    hide DataOf, D32, Le32;
    DataKind(t);
    BlockFields(c, b, t.off, DataOf(t));
    assert c.compress(DataOf(t)) != [];
  }

  /** A leaf and the link behind it. */
  lemma LeafRead(c: Codec, b: Buffer, l: ITree, next: nat)
    requires Lawful(c) && LeafHeld(c, b, l, next)
    ensures NodeAt(c, b, l.off) == if Legible(c, l) then Some(DataOf(l)) else None
    ensures l.off + 8 <= |b| && NodeEnd(b, l.off) + 8 <= |b|
    ensures D64(b[NodeEnd(b, l.off)..NodeEnd(b, l.off) + 8]) == next % U64_LIMIT
  {
    hide DataOf, D64, U64, NodeAt, NodeEnd, Block, LeafShape;
    AtParts(b, l.off, Block(c, DataOf(l)), Le64(next));
    BlockRead(c, b, l);
    LeRead(next);
  }

  lemma NodeRead(c: Codec, b: Buffer, t: ITree, es: seq<Entry>, m: nat, next: nat)
    requires Lawful(c) && Held(c, b, t, es, m, next)
    ensures NodeAt(c, b, t.off) == if Legible(c, t) then Some(DataOf(t)) else None
    ensures t.off + 8 <= |b| && 0 < t.off < OFFSET_LIMIT && NodeEnd(b, t.off) == t.off + |Block(c, DataOf(t))|
  {
    hide DataOf, Block, NodeAt, NodeEnd, Built, Sorted, Le64;
    AtParts(b, t.off, Block(c, DataOf(t)), Le64(next));
    BlockRead(c, b, t);
  }

  // ---------------------------------------------------------------- an open database

  /** struct udx_db, as far as the index goes. */
  class Db {
    const file: File
    const codec: Codec
    const lower: byte -> byte
    const entryCount: nat
    const firstLeafOffset: nat
    const root: Option<Buffer>

    /** The tree in the file, its entries and its node capacity. */
    ghost const tree: ITree
    ghost const es: seq<Entry>
    ghost const m: nat

    ghost predicate Valid()
      reads file
    {
      && Lawful(codec) && Lowering(lower)
      && Held(codec, file.bytes, tree, es, m, 0)
      && entryCount == |es| && firstLeafOffset == First(tree) < OFFSET_LIMIT
      && root == Some(DataOf(tree)) && Legible(codec, tree)
    }

    constructor (file: File, codec: Codec, lower: byte -> byte, entryCount: nat, root: Buffer, firstLeafOffset: u64,
                 ghost tree: ITree, ghost es: seq<Entry>, ghost m: nat)
      ensures this.file == file && this.codec == codec && this.lower == lower
      ensures this.entryCount == entryCount && this.root == Some(root) && this.firstLeafOffset == firstLeafOffset
      ensures this.tree == tree && this.es == es && this.m == m
    {
      this.file, this.codec, this.lower := file, codec, lower;
      this.entryCount, this.firstLeafOffset, this.root := entryCount, firstLeafOffset, Some(root);
      this.tree, this.es, this.m := tree, es, m;
    }

    /** The descent of lookup and prefix match to the leaf a key leads to. */
    method Descend(key: CString) returns (status: Status, data: Buffer, isRoot: bool, ghost spot: Spot)
      requires Valid()
      modifies file`pos
      ensures status == if WayLegible(codec, tree, key) then UdxOk else ErrFormat
      ensures spot == Landing(tree, key, false)
      ensures status == UdxOk ==> data == DataOf(spot.leaf) && data != [] && data[0] == 2
      ensures status == UdxOk ==> (isRoot <==> tree.ILeaf?)
      ensures status == UdxOk && !isRoot ==>
        spot.leaf.off + 8 <= |file.bytes| && file.pos == NodeEnd(file.bytes, spot.leaf.off)
    {
      hide Held, DataOf, NodeAt, NodeEnd, Passed, NodeShape, Leaves, Concat, Lawful;
      ghost var t, part, next, b := tree, es, 0, file.bytes;
      ghost var index: nat, at: nat := 0, 0;
      data := root.value;
      isRoot := true;
      DataKind(t);
      while data[0] == 1
        invariant Held(codec, b, t, part, m, next) && file.bytes == b
        invariant data == DataOf(t) && data != [] && data[0] == (if t.ILeaf? then 2 else 1)
        invariant isRoot ==> t == tree && index == 0 && at == 0
        invariant !isRoot ==> tree.INode? && t.off + 8 <= |b| && file.pos == NodeEnd(b, t.off)
        invariant WayLegible(codec, tree, key) <==> WayLegible(codec, t, key)
        invariant var s := Landing(t, key, false); Landing(tree, key, false) == Spot(s.leaf, index + s.index, at + s.at)
        decreases t
      {
        HeldNode(codec, b, t, part, m, next);
        ghost var i := Passed(t.keys, key, false);
        var off := FindChildOffset(data, key, Offs(t.children), t.keys);
        HeldChild(codec, b, t, part, m, next, i);
        ghost var u, sub, onward := t.children[i], Part(part, m, i), Onward(t.children, i, next);
        NodeRead(codec, b, u, sub, m, onward);
        DataKind(u);
        isRoot := false;
        var node := ReadIndexNode(codec, file, off);
        if node.None? {
          return ErrFormat, data, isRoot, Landing(tree, key, false);
        }
        data := node.value;
        index, at := index + |LeavesTo(t.children, i)|, at + |Concat(LeavesTo(t.children, i))|;
        t, part, next := u, sub, onward;
      }
      spot := Landing(tree, key, false);
      status := UdxOk;
    }

    /** The leaf a key leads to. */
    lemma LandingHeld(key: CString)
      requires Valid()
      ensures var s := Landing(tree, key, false);
        && s.leaf.ILeaf? && s.index < |Leaves(tree)| && s.leaf == Leaves(tree)[s.index]
        && LeafHeld(codec, file.bytes, s.leaf, NextOff(Leaves(tree), s.index, 0))
    {
      hide Built, Stored, Leaves, LeafHeld, Landing, Less, Placed, Fits;
      LandingOk(tree, es, m, key, false);
      HeldLinked(codec, file.bytes, tree, es, m, 0);
    }

    /** udx_db_key_entry_lookup: an error if and only if a node on the way is too large; otherwise a stored key is
        found unless it is a separator. */
    method Lookup(key: CString) returns (status: Status, entry: Option<Entry>)
      requires Valid()
      modifies file`pos
      ensures NulFree(Fold(lower, key)) && Valid()
      ensures var k := Fold(lower, key);
        if !WayLegible(codec, tree, k) then status == ErrFormat && entry == None
        else && entry == (if Has(es, k) && k !in Seps(tree) then Some(es[Rank(es, k)]) else None)
             && status == if entry.Some? then UdxOk else UdxNotFound
      ensures entry.Some? ==>
        && entry.value in es && entry.value.key !in Seps(tree) && |entry.value.key| == |key|
        && forall i :: 0 <= i < |key| ==> entry.value.key[i] == lower(key[i])
      ensures status == UdxNotFound ==> forall e :: e in es && |e.key| == |key| ==>
        e.key in Seps(tree) || exists i :: 0 <= i < |key| && e.key[i] != lower(key[i])
    {
      hide Held, DataOf, NodeEnd, Seps, Landing, Leaves, Rank, ParseAt, EntryPos, WayLegible, LeafAnswer;
      NotEmpty();
      LookupMeans(key);
      if entryCount == 0 || root.None? {
        return UdxNotFound, None;
      }
      FoldStable(lower, key);
      var folded := FoldString(lower, key);
      var status0, data, isRoot, spot := Descend(folded);
      if status0 != UdxOk {
        return status0, None;
      }
      LandingHeld(folded);
      LookupHere(folded);
      ghost var l := spot.leaf.entries;
      LeafSorted(data, l);
      var pos := SearchLeaf(data, folded, true);
      LeafAnswered(data, l, folded, true, pos);
      if pos.None? {
        return UdxNotFound, None;
      }
      EntryInLeaf(data, l, Rank(l, folded));
      var size;
      size, entry := ParseEntry(data, pos.value, true);
      status := if entry.None? then ErrFormat else UdxOk;
    }

    /** What an exact lookup says about the stored keys, character by character. */
    lemma LookupMeans(key: CString)
      requires Valid()
      ensures var k := Fold(lower, key);
        if Has(es, k) && k !in Seps(tree) then
          var e := es[Rank(es, k)];
          && e in es && e.key !in Seps(tree) && |e.key| == |key|
          && forall i :: 0 <= i < |key| ==> e.key[i] == lower(key[i])
        else
          forall e :: e in es && |e.key| == |key| ==>
            e.key in Seps(tree) || exists i :: 0 <= i < |key| && e.key[i] != lower(key[i])
    {
      hide Held, Lawful, Rank, Seps, DataOf;
      SortedEntries();
      var k := Fold(lower, key);
      HasIff(es, k);
      forall e | e in es && |e.key| == |key| && forall i :: 0 <= i < |key| ==> e.key[i] == lower(key[i])
        ensures e.key == k && Has(es, k)
      {
        FoldIs(lower, key, e.key);
        var i :| 0 <= i < |es| && es[i] == e;
      }
    }

    /** The first entries are in strcmp order. */
    lemma InOrder(front: seq<Entry>)
      requires Valid() && |front| <= |es| && front == es[..|front|]
      ensures forall i, j, k ::
        && 0 <= i < j < |front| && 0 <= k <= |front[i].key| && k <= |front[j].key|
        && front[i].key[..k] == front[j].key[..k]
        ==> k < |front[j].key| && (k < |front[i].key| ==> front[i].key[k] <= front[j].key[k])
    {
      hide Held, Less;
      SortedEntries();
      SortedMeans(front);
    }

    lemma SortedEntries()
      requires Valid()
      ensures Sorted(es)
    {
      hide Built, Stored, Placed, Fits, DataOf, Less;
    }

    /** What the leaf holds decides the lookup. */
    lemma LookupHere(k: CString)
      requires Valid()
      ensures var l := Landing(tree, k, false).leaf;
        && l.ILeaf? && LeafShape(DataOf(l), l.entries)
        && (if Has(es, k) && k !in Seps(tree) then Some(es[Rank(es, k)]) else None)
           == (if Has(l.entries, k) then Some(l.entries[Rank(l.entries, k)]) else None)
    {
      hide Built, Stored, Leaves, Landing, Seps, Less, Rank, Placed, Fits, DataOf;
      LandingHeld(k);
      LookupExact(tree, es, m, k);
    }

    // -------------------------------------------------------------- prefix match

    /** Leaf j of the chain is the node at hand, and its link has been read. */
    ghost predicate OnLeaf(j: nat, data: Buffer, next: nat)
      reads file
    {
      && j < |Leaves(tree)| && Leaves(tree)[j].ILeaf? && data == DataOf(Leaves(tree)[j])
      && LeafHeld(codec, file.bytes, Leaves(tree)[j], NextOff(Leaves(tree), j, 0))
      && next == NextOff(Leaves(tree), j, 0)
    }

    /** Where leaf j begins among all entries, and what it holds. */
    lemma LeafEntries(j: nat)
      requires Valid() && j < |Leaves(tree)|
      ensures var a, l := |Concat(Leaves(tree)[..j])|, Leaves(tree)[j];
        && l.ILeaf? && a + |l.entries| <= |es| && l.entries == es[a..a + |l.entries|] && l.entries != []
        && |Concat(Leaves(tree)[..j + 1])| == a + |l.entries|
        && (j + 1 == |Leaves(tree)| ==> a + |l.entries| == |es|)
        && LeafHeld(codec, file.bytes, l, NextOff(Leaves(tree), j, 0))
        && 0 < l.off < OFFSET_LIMIT
    {
      hide Built, Stored, Leaves, LeafHeld, Less, Placed, Fits, Concat, Sorted;
      LeavesHold(tree, es, m);
      LeafSpan(Leaves(tree), j);
      HeldLinked(codec, file.bytes, tree, es, m, 0);
      LeafOffset(codec, file.bytes, Leaves(tree)[j], NextOff(Leaves(tree), j, 0));
      if j + 1 == |Leaves(tree)| { assert Leaves(tree)[..j + 1] == Leaves(tree); }
    }

    /** A zero link is the end of the chain. */
    lemma LinkEnds(j: nat)
      requires Valid() && j < |Leaves(tree)|
      ensures NextOff(Leaves(tree), j, 0) < OFFSET_LIMIT
      ensures NextOff(Leaves(tree), j, 0) == 0 <==> j + 1 == |Leaves(tree)|
    {
      hide Valid, Leaves, Concat;
      if j + 1 < |Leaves(tree)| { LeafEntries(j + 1); }
    }

    /** Following the link to the next leaf, when the reader accepts that. */
    method NextLeaf(next: u64, ghost j: nat) returns (node: Option<Buffer>, ok: bool, nextLeaf: nat)
      requires Valid() && j + 1 < |Leaves(tree)| && next == Leaves(tree)[j + 1].off
      modifies file`pos
      ensures Valid() && (node.Some? <==> Legible(codec, Leaves(tree)[j + 1]))
      ensures node.Some? ==> ok && OnLeaf(j + 1, node.value, nextLeaf)
    {
      hide Held, Leaves, Concat, LeafHeld, DataOf, NodeAt, NodeEnd, D64, Lawful;
      LeafEntries(j + 1);
      LeafRead(codec, file.bytes, Leaves(tree)[j + 1], NextOff(Leaves(tree), j + 1, 0));
      LinkEnds(j + 1);
      node := ReadIndexNode(codec, file, next);
      ok, nextLeaf := false, 0;
      if node.Some? {
        ok, nextLeaf := ReadNextLeaf(file);
      }
    }

    /** The inner loop of prefix match: the entries of one leaf from position current on, while they match. */
    method ScanLeaf(data: Buffer, start: nat, key: CString, limit: nat, result: seq<Entry>, ghost l: seq<Entry>,
                    ghost i: nat)
      returns (stop: bool, failed: bool, out: seq<Entry>, ghost e: nat)
      requires LeafShape(data, l) && i <= |l| && start == EntryPos(l, i) && (limit > 0 ==> |result| < limit)
      ensures !failed && i <= e <= |l| && out == result + l[i..e] && forall x :: i <= x < e ==> HasPrefix(l[x].key, key)
      ensures stop <==> (e < |l| && !HasPrefix(l[e].key, key)) || (limit > 0 && |out| == limit)
      ensures limit > 0 ==> |out| <= limit
      ensures !stop ==> e == |l|
    {
      hide LeafShape, EntryPos, HasPrefix, ParseAt, Sorted;
      LeafParts(data, l);
      out, e, failed := result, i, false;
      var current := start;
      EntryPosMonotone(l, i, |l|);
      while current < |data|
        invariant i <= e <= |l| && current == EntryPos(l, e) <= |data| && out == result + l[i..e]
        invariant forall x :: i <= x < e ==> HasPrefix(l[x].key, key)
        invariant limit > 0 ==> |out| < limit
        decreases |data| - current
      {
        EntryInLeaf(data, l, e);
        var entryKey := CStr(data, current);
        if !HasPrefix(entryKey, key) {
          stop := true;
          return;
        }
        var size, entry := ParseEntry(data, current, true);
        if size == 0 || entry.None? {
          failed := true;
          return;
        }
        out := out + [entry.value];
        e := e + 1;
        if limit > 0 && |out| >= limit {
          stop := true;
          return;
        }
        current := current + size;
      }
      EntryPosEnd(l, e);
      stop := false;
    }

    /** A run of matches so far: everything from b up to q, below the limit. */
    ghost predicate Collected(p: Buffer, limit: nat, b: nat, q: nat, result: seq<Entry>) {
      && b == Rank(es, p) + (if p in Seps(tree) then 1 else 0) && (p in Seps(tree) ==> Has(es, p))
      && b <= q <= |es| && result == es[b..q] && (forall x :: b <= x < q ==> HasPrefix(es[x].key, p))
      && (limit > 0 ==> |result| <= limit)
    }

    lemma CollectMore(p: Buffer, limit: nat, b: nat, q: nat, result: seq<Entry>, j: nat, i: nat, e: nat,
                      out: seq<Entry>)
      requires Valid() && j < |Leaves(tree)| && Leaves(tree)[j].ILeaf?
      requires Collected(p, limit, b, q, result) && q == |Concat(Leaves(tree)[..j])| + i
      requires var l := Leaves(tree)[j].entries;
        i <= e <= |l| && out == result + l[i..e] && forall x :: i <= x < e ==> HasPrefix(l[x].key, p)
      requires limit > 0 ==> |out| <= limit
      ensures var a, l := |Concat(Leaves(tree)[..j])|, Leaves(tree)[j].entries;
        && Collected(p, limit, b, a + e, out)
        && (e < |l| ==> a + e < |es| && es[a + e] == l[e]) && a + |l| <= |es|
    {
      hide Valid, Leaves, Concat, Rank, HasPrefix, Seps;
      LeafEntries(j);
      var a, l := |Concat(Leaves(tree)[..j])|, Leaves(tree)[j].entries;
      RunGrows(es, b, q, a, l, i, e);
      forall x | b <= x < a + e ensures HasPrefix(es[x].key, p) {
        if x >= q { assert l[x - a] == es[x]; }
      }
    }

    /** A finished run is the limited list of the wanted entries in front of position end. */
    lemma CollectedAll(p: Buffer, limit: nat, b: nat, q: nat, result: seq<Entry>, end: nat)
      requires Valid() && Collected(p, limit, b, q, result) && q <= end <= |es|
      requires q == end || !HasPrefix(es[q].key, p) || (limit > 0 && |result| == limit)
      ensures result == Limited(Filter(es[..end], p, p in Seps(tree)), limit)
    {
      hide Rank, HasPrefix, Seps, Built, Stored, Fits, Placed, Filter, Less;
      var front := es[..end];
      RankIs(front, p, Rank(es, p));
      assert front[b..q] == es[b..q];
      RunIsMatch(front, p, p in Seps(tree), limit, b, q);
    }

    /** How many entries lie in front of the first leaf from index i on that the reader does not accept. */
    ghost function Lit(i: nat): (end: nat)
      requires i <= |Leaves(tree)|
    {
      |Concat(Leaves(tree)[..FirstDark(codec, Leaves(tree), i)])|
    }

    /** The entries in front of that leaf. */
    ghost function Front(i: nat): seq<Entry> {
      if i <= |Leaves(tree)| && Lit(i) <= |es| then es[..Lit(i)] else es
    }

    /** The reader accepts all leaves. */
    ghost predicate AllLit() {
      FirstDark(codec, Leaves(tree), 0) == |Leaves(tree)|
    }

    /** At the end of leaf j the walk goes on, stops in front of a leaf that is too large, or is done. */
    lemma DarkEnds(j: nat)
      requires Valid() && j < FirstDark(codec, Leaves(tree), 0)
      ensures j + 1 == |Leaves(tree)| ==> AllLit() && Lit(0) == |es|
      ensures j + 1 < |Leaves(tree)| && !Legible(codec, Leaves(tree)[j + 1]) ==>
        !AllLit() && Lit(0) == |Concat(Leaves(tree)[..j + 1])|
      ensures j + 1 < |Leaves(tree)| && Legible(codec, Leaves(tree)[j + 1]) ==>
        j + 1 < FirstDark(codec, Leaves(tree), 0)
    {
      hide Valid, Leaves, Concat, FirstDark, Legible;
      LitIs(0);
    }

    /** Entry x lies in front if and only if the reader accepts every leaf from leaf i on that begins at x or before. */
    lemma LitIff(i: nat, x: nat)
      requires Valid() && i <= |Leaves(tree)| && x < |es|
      ensures x < Lit(i) <==>
        forall j :: i <= j < |Leaves(tree)| && |Concat(Leaves(tree)[..j])| <= x ==> Legible(codec, Leaves(tree)[j])
    {
      hide Held, Lawful, DataOf, Leaves, Concat, FirstDark, Legible;
      LitIs(i);
      var d := FirstDark(codec, Leaves(tree), i);
      if x < Lit(i) {
        forall j | i <= j < |Leaves(tree)| && |Concat(Leaves(tree)[..j])| <= x ensures j < d {
          if d <= j { SpansMonotoneIn(d, j); }
        }
      }
    }

    lemma SpansMonotoneIn(i: nat, j: nat)
      requires i <= j <= |Leaves(tree)|
      ensures |Concat(Leaves(tree)[..i])| <= |Concat(Leaves(tree)[..j])|
    {
      hide Leaves, Concat;
      SpansMonotone(Leaves(tree), i, j);
    }

    lemma LitIs(i: nat)
      requires Valid() && i <= |Leaves(tree)|
      ensures Lit(i) <= |es| && Front(i) == es[..Lit(i)]
      ensures Lit(i) == |Concat(Leaves(tree)[..FirstDark(codec, Leaves(tree), i)])|
      ensures (FirstDark(codec, Leaves(tree), i) == |Leaves(tree)| ==> Lit(i) == |es|)
      ensures forall j :: 0 <= j <= FirstDark(codec, Leaves(tree), i) ==> |Concat(Leaves(tree)[..j])| <= Lit(i)
    {
      hide Built, Stored, Leaves, Less, Placed, Fits, Concat, Sorted, FirstDark;
      LeavesHold(tree, es, m);
      var ls, d := Leaves(tree), FirstDark(codec, Leaves(tree), i);
      SpansMonotone(ls, d, |ls|);
      assert ls[..|ls|] == ls;
      forall j | 0 <= j <= d ensures |Concat(ls[..j])| <= Lit(i) { SpansMonotone(ls, j, d); }
    }

    /** Where the scan begins: behind the entries below the prefix, and behind the prefix itself when it is a
        separator. */
    lemma CollectStart(p: CString, limit: nat, s: Spot)
      requires Valid() && s == Landing(tree, p, false) && s.leaf.ILeaf? && s.index < |Leaves(tree)|
      ensures s.at == |Concat(Leaves(tree)[..s.index])|
      ensures LeafShape(DataOf(s.leaf), s.leaf.entries)
      ensures
        && s.at + |s.leaf.entries| <= |es|
        && var r := Rank(s.leaf.entries, p);
           && Collected(p, limit, s.at + r, s.at + r, [])
           && (r == |s.leaf.entries| ==> s.at + r == |es|)
           && (r < |s.leaf.entries| ==> es[s.at + r] == s.leaf.entries[r])
    {
      hide Built, Stored, Leaves, Landing, Seps, Less, Rank, Placed, Fits, DataOf, Concat;
      LandingHeld(p);
      LandingRank(tree, es, m, p);
      LandingOk(tree, es, m, p, false);
      var b := s.at + Rank(s.leaf.entries, p);
      assert es[b..b] == [];
    }

    /** The answer of prefix match in plain words. */
    lemma MatchesMean(p: Buffer, limit: nat, j: nat, r: seq<Entry>)
      requires Valid() && j <= |Leaves(tree)| && r == Limited(Filter(Front(j), p, p in Seps(tree)), limit)
      ensures forall x, y :: 0 <= x < y < |r| ==> Compare(r[x].key, r[y].key) < 0
      ensures limit > 0 ==> |r| <= limit
      ensures forall e :: e in r ==>
        e in es && exists t: Buffer :: e.key == p + t && (p in Seps(tree) ==> t != [])
      ensures forall x, t: Buffer ::
        0 <= x < Lit(j) && x < |es| && es[x].key == p + t && (p in Seps(tree) ==> t != [])
        ==> es[x] in r || (0 < limit == |r| && forall y :: y in r ==> Compare(y.key, es[x].key) < 0)
    {
      hide Built, Stored, Leaves, Less, Placed, Fits, Concat, FirstDark, Lit, Front, Filter, Limited, Seps, Compare;
      LitIs(j);
      var front := Front(j);
      assert Sorted(front);
      MatchMeans(front, p, p in Seps(tree), limit, r);
      assert forall x :: 0 <= x < Lit(j) ==> es[x] == front[x];
    }

    /** udx_db_key_entry_prefix_match: an error if and only if a node on the way is too large; otherwise all stored
        entries with the prefix in ascending order, cut to the limit, without the entry equal to the prefix when that
        is a separator, and without those from the first leaf on that is too large. */
    method PrefixMatch(prefix: CString, limit: nat) returns (status: Status, entries: seq<Entry>)
      requires Valid()
      modifies file`pos
      ensures Valid()
      ensures var p := Fold(lower, prefix);
        if !WayLegible(codec, tree, p) then status == ErrFormat && entries == []
        else && Landing(tree, p, false).index < |Leaves(tree)|
             && entries == Limited(Filter(Front(Landing(tree, p, false).index + 1), p, p in Seps(tree)), limit)
             && status == if entries == [] then UdxNotFound else UdxOk
      ensures forall i, j :: 0 <= i < j < |entries| ==> Compare(entries[i].key, entries[j].key) < 0
      ensures limit > 0 ==> |entries| <= limit
      ensures forall e :: e in entries ==>
        && e in es
        && exists t: Buffer :: e.key == Fold(lower, prefix) + t && (Fold(lower, prefix) in Seps(tree) ==> t != [])
      ensures status != ErrFormat ==> Landing(tree, Fold(lower, prefix), false).index < |Leaves(tree)|
      ensures status != ErrFormat ==> forall x, t: Buffer ::
        && 0 <= x < Lit(Landing(tree, Fold(lower, prefix), false).index + 1) && x < |es|
        && es[x].key == Fold(lower, prefix) + t && (Fold(lower, prefix) in Seps(tree) ==> t != [])
        ==> es[x] in entries || (0 < limit == |entries| && forall y :: y in entries ==> Compare(y.key, es[x].key) < 0)
    {
      hide Held, Lawful, DataOf, Seps, Landing, Leaves, Filter, Limited, WayLegible, Lit, Front, Compare;
      NotEmpty();
      if entryCount == 0 || root.None? {
        return UdxNotFound, [];
      }
      FoldStable(lower, prefix);
      var key := FoldString(lower, prefix);
      status, entries := MatchFolded(key, limit);
      if status != ErrFormat { MatchesMean(key, limit, Landing(tree, key, false).index + 1, entries); }
    }

    /** Prefix match behind the folding of the prefix. */
    method MatchFolded(key: CString, limit: nat) returns (status: Status, entries: seq<Entry>)
      requires Valid()
      modifies file`pos
      ensures Valid()
      ensures if !WayLegible(codec, tree, key) then status == ErrFormat && entries == []
        else && Landing(tree, key, false).index < |Leaves(tree)|
             && entries == Limited(Filter(Front(Landing(tree, key, false).index + 1), key, key in Seps(tree)), limit)
             && status == if entries == [] then UdxNotFound else UdxOk
    {
      hide Held, DataOf, NodeAt, NodeEnd, Seps, Landing, Leaves, Concat, Rank, LeafHeld, LeafShape, Filter, Limited;
      hide Collected, HasPrefix, EntryPos, Lawful, WayLegible, FirstDark, Lit, Front, LeafAnswer;
      var status0, data, isRoot, spot := Descend(key);
      if status0 != UdxOk {
        return status0, [];
      }
      LandingHeld(key);
      CollectStart(key, limit, spot);
      ghost var l, r := spot.leaf.entries, Rank(spot.leaf.entries, key);
      var ok, nextLeaf := LandingLink(isRoot, spot);
      if !ok {
        return ErrIo, [];
      }
      LeafSorted(data, l);
      var first := SearchLeaf(data, key, false);
      LeafAnswered(data, l, key, false, first);
      LitIs(spot.index + 1);
      LeafEntries(spot.index);
      if first.None? {
        CollectedAll(key, limit, spot.at + r, spot.at + r, [], Lit(spot.index + 1));
        return UdxNotFound, [];
      }
      entries := CollectRun(data, first.value, key, limit, nextLeaf, spot.index, r, spot.at + r);
      status := if entries == [] then UdxNotFound else UdxOk;
    }

    /** The link of the leaf a descent ends at; a leaf that is the root has none. */
    method LandingLink(isRoot: bool, ghost spot: Spot) returns (ok: bool, nextLeaf: nat)
      requires Valid() && spot.index < |Leaves(tree)| && (isRoot <==> tree.ILeaf?)
      requires LeafHeld(codec, file.bytes, spot.leaf, NextOff(Leaves(tree), spot.index, 0))
      requires !isRoot ==> spot.leaf.off + 8 <= |file.bytes| && file.pos == NodeEnd(file.bytes, spot.leaf.off)
      modifies file`pos
      ensures Valid() && ok && nextLeaf == NextOff(Leaves(tree), spot.index, 0)
    {
      hide Held, DataOf, NodeAt, NodeEnd, Leaves, LeafHeld, Lawful, D64;
      ok, nextLeaf := true, 0;
      if !isRoot {
        LeafRead(codec, file.bytes, spot.leaf, NextOff(Leaves(tree), spot.index, 0));
        ok, nextLeaf := ReadNextLeaf(file);
        LinkEnds(spot.index);
      } else {
        OneLeaf();
      }
    }

    lemma NotEmpty()
      requires Valid()
      ensures entryCount > 0 && root.Some?
    {
    }

    /** A tree without internal nodes has one leaf. */
    lemma OneLeaf()
      requires Valid()
      ensures tree.ILeaf? ==> |Leaves(tree)| == 1
    {
    }

    /** The outer loop of prefix match, along the leaf chain. */
    method CollectRun(data0: Buffer, start: nat, key: CString, limit: nat, next0: nat, ghost j0: nat,
                      ghost i0: nat, ghost b: nat)
      returns (result: seq<Entry>)
      requires Valid() && OnLeaf(j0, data0, next0) && i0 <= |Leaves(tree)[j0].entries|
      requires start == EntryPos(Leaves(tree)[j0].entries, i0)
      requires b == |Concat(Leaves(tree)[..j0])| + i0 && Collected(key, limit, b, b, [])
      modifies file`pos
      ensures Valid() && result == Limited(Filter(Front(j0 + 1), key, key in Seps(tree)), limit)
    {
      hide Held, DataOf, Seps, Leaves, Concat, Rank, LeafShape, Filter, Limited, Collected, HasPrefix, EntryPos, Lawful;
      hide NextOff, FirstDark, Lit, Front, Legible;
      ghost var dark, end := FirstDark(codec, Leaves(tree), j0 + 1), Lit(j0 + 1);
      LitIs(j0 + 1);
      var data, current, nextLeaf := data0, start, next0;
      ghost var j: nat, i: nat, q: nat := j0, i0, b;
      result := [];
      while true
        invariant Valid() && OnLeaf(j, data, nextLeaf) && j0 <= j < dark
        invariant i <= |Leaves(tree)[j].entries| && current == EntryPos(Leaves(tree)[j].entries, i)
        invariant q == |Concat(Leaves(tree)[..j])| + i && Collected(key, limit, b, q, result)
        invariant limit > 0 ==> |result| < limit
        decreases |Leaves(tree)| - j
      {
        ghost var l := Leaves(tree)[j].entries;
        LeafEntries(j);
        var stop, failed, out, e := ScanLeaf(data, current, key, limit, result, l, i);
        CollectMore(key, limit, b, q, result, j, i, e, out);
        q := |Concat(Leaves(tree)[..j])| + e;
        result := out;
        LinkEnds(j);
        assert q <= |Concat(Leaves(tree)[..j + 1])| <= end;
        if stop || nextLeaf == 0 {
          CollectedAll(key, limit, b, q, result, end);
          return;
        }
        NextIs(j);
        var node, ok;
        node, ok, nextLeaf := NextLeaf(nextLeaf, j);
        if node.None? {
          CollectedAll(key, limit, b, q, result, end);
          return;
        }
        if !ok {
          return;
        }
        j, i := j + 1, 0;
        data, current := node.value, 3;
        EntryPosZero(Leaves(tree)[j].entries);
      }
    }

    lemma NextIs(j: nat)
      requires j + 1 < |Leaves(tree)|
      ensures NextOff(Leaves(tree), j, 0) == Leaves(tree)[j + 1].off
    {
    }
  }

  lemma RunGrows(es: seq<Entry>, b: nat, q: nat, a: nat, l: seq<Entry>, i: nat, e: nat)
    requires b <= q == a + i && i <= e <= |l| && a + |l| <= |es| && l == es[a..a + |l|]
    ensures es[b..q] + l[i..e] == es[b..a + e]
  {
    SliceOfSlice(es, a, |l|, i, e - i);
    SliceJoin(es, b, q, a + e);
  }

  /** Entries lie one behind the other. */
  lemma {:induction false} EntryPosMonotone(l: seq<Entry>, i: nat, j: nat)
    requires i <= j <= |l|
    ensures EntryPos(l, i) <= EntryPos(l, j)
    decreases j
  {
    if i < j {
      EntryPosStep(l, j - 1);
      EntryPosMonotone(l, i, j - 1);
    }
  }

  lemma EntryPosEnd(l: seq<Entry>, i: nat)
    requires i <= |l| && EntryPos(l, i) >= EntryPos(l, |l|)
    ensures i == |l|
  {
    hide EntryPos;
    if i < |l| {
      EntryPosStep(l, i);
      EntryPosMonotone(l, i + 1, |l|);
    }
  }

  lemma LeafOffset(c: Codec, b: Buffer, l: ITree, next: nat)
    requires LeafHeld(c, b, l, next)
    ensures 0 < l.off < OFFSET_LIMIT
  {
  }

  // ---------------------------------------------------------------- walking all entries

  /** struct udx_db_iter */
  class DbIter {
    const db: Db
    var leafData: Buffer
    var nextLeafOffset: nat
    var currentIndex: nat
    var entryCount: nat
    var currentPtr: nat
    /** The leaf at hand. */
    ghost var leaf: nat

    /** How many entries have been handed out. */
    ghost function Consumed(): nat
      reads this
    {
      if leaf <= |Leaves(db.tree)| then |Concat(Leaves(db.tree)[..leaf])| + currentIndex else 0
    }

    ghost predicate Valid()
      reads this, db.file
    {
      && db.Valid() && db.OnLeaf(leaf, leafData, nextLeafOffset)
      && entryCount == |Leaves(db.tree)[leaf].entries| && currentIndex <= entryCount
      && currentPtr == EntryPos(Leaves(db.tree)[leaf].entries, currentIndex)
      && leaf < FirstDark(db.codec, Leaves(db.tree), 0)
    }

    /** The fields for the beginning of a leaf. */
    method Enter(data: Buffer, next: nat, ghost j: nat)
      requires db.Valid() && db.OnLeaf(j, data, next) && j < FirstDark(db.codec, Leaves(db.tree), 0)
      modifies this
      ensures Valid() && leaf == j && currentIndex == 0
    {
      hide Held, DataOf, Leaves, EntryPos, NextOff, FirstDark;
      leafData, nextLeafOffset := data, next;
      LeafParts(data, Leaves(db.tree)[j].entries);
      EntryPosZero(Leaves(db.tree)[j].entries);
      entryCount := D16(data[1..3]);
      currentIndex := 0;
      currentPtr := 3;
      leaf := j;
    }

    constructor Blank(db: Db)
      ensures this.db == db
    {
      this.db := db;
      leafData, nextLeafOffset, currentIndex, entryCount, currentPtr, leaf := [], 0, 0, 0, 0, 0;
    }

    /** udx_db_iter_next: the next entry in order; behind the last one UDX_DONE, and in front of a leaf that is too
        large UDX_ERR_FORMAT. */
    method Next() returns (status: Status, entry: Option<Entry>)
      requires Valid()
      modifies this, db.file`pos
      ensures Valid() && old(Consumed()) <= db.Lit(0) <= |db.es|
      ensures status == if old(Consumed()) < db.Lit(0) then UdxOk else if db.AllLit() then UdxDone else ErrFormat
      ensures entry == if old(Consumed()) < db.Lit(0) then Some(db.es[old(Consumed())]) else None
      ensures Consumed() == old(Consumed()) + if entry.Some? then 1 else 0
    {
      hide Db.Valid, Held, DataOf, Leaves, EntryPos, NextOff, Concat, ParseAt, LeafShape, FirstDark, Legible, Db.Lit;
      ghost var p := Consumed();
      db.LeafEntries(leaf);
      db.LitIs(0);
      while true
        invariant Valid() && Consumed() == p
        decreases |Leaves(db.tree)| - leaf
      {
        ghost var l := Leaves(db.tree)[leaf].entries;
        db.LeafEntries(leaf);
        assert |Concat(Leaves(db.tree)[..leaf + 1])| <= db.Lit(0);
        if currentIndex < entryCount {
          EntryInLeaf(leafData, l, currentIndex);
          var size;
          size, entry := ParseEntry(leafData, currentPtr, true);
          if size == 0 || entry.None? {
            return ErrFormat, None;
          }
          currentPtr := currentPtr + size;
          currentIndex := currentIndex + 1;
          return UdxOk, entry;
        }
        db.LinkEnds(leaf);
        db.DarkEnds(leaf);
        if nextLeafOffset == 0 {
          return UdxDone, None;
        }
        db.NextIs(leaf);
        var node, ok, next := db.NextLeaf(nextLeafOffset, leaf);
        if node.None? {
          return ErrFormat, None;
        }
        if !ok {
          return ErrIo, None;
        }
        Enter(node.value, next, leaf + 1);
      }
    }
  }

  /** udx_db_iter_create: no iterator if and only if the first leaf is too large. */
  method CreateIter(db: Db) returns (iter: DbIter?)
    requires db.Valid()
    modifies db.file`pos
    ensures db.Valid() && Leaves(db.tree) != []
    ensures iter == null <==> !Legible(db.codec, Leaves(db.tree)[0])
    ensures iter != null ==> fresh(iter) && iter.db == db && iter.Valid() && iter.Consumed() == 0
  {
    hide Held, DataOf, Leaves, EntryPos, NextOff, Concat, NodeAt, NodeEnd, Lawful, D64, LeafHeld, FirstDark, Legible;
    db.NotEmpty();
    FirstHeld(db);
    if db.entryCount == 0 {
      return null;
    }
    var node := ReadIndexNode(db.codec, db.file, db.firstLeafOffset);
    if node.None? {
      return null;
    }
    var ok, next := ReadNextLeaf(db.file);
    if !ok {
      return null;
    }
    iter := new DbIter.Blank(db);
    iter.Enter(node.value, next, 0);
  }

  lemma FirstHeld(db: Db)
    requires db.Valid()
    ensures var ls := Leaves(db.tree);
      && ls != [] && db.firstLeafOffset == ls[0].off && |Concat(ls[..0])| == 0
      && ls[0].ILeaf? && LeafHeld(db.codec, db.file.bytes, ls[0], NextOff(ls, 0, 0))
      && (0 < FirstDark(db.codec, ls, 0) <==> Legible(db.codec, ls[0]))
    ensures var b, l := db.file.bytes, Leaves(db.tree)[0];
      && NodeAt(db.codec, b, l.off) == (if Legible(db.codec, l) then Some(DataOf(l)) else None)
      && l.off + 8 <= |b| && NodeEnd(b, l.off) + 8 <= |b|
      && D64(b[NodeEnd(b, l.off)..NodeEnd(b, l.off) + 8]) == NextOff(Leaves(db.tree), 0, 0)
  {
    hide DataOf, Leaves, NextOff, LeafHeld, NodeAt, NodeEnd, Lawful, D64, Built, Stored, Placed, Fits, Legible;
    var ls := Leaves(db.tree);
    HeldFirst(db.codec, db.file.bytes, db.tree, db.es, db.m, 0);
    assert ls[..0] == [];
    ConcatNone();
    db.LeafEntries(0);
    db.LinkEnds(0);
    LeafRead(db.codec, db.file.bytes, ls[0], NextOff(ls, 0, 0));
  }

  /** Walking a database from its first leaf: every entry once, in order, and then UDX_DONE, if and only if no leaf is
      too large; otherwise the entries in front of the first such leaf and then UDX_ERR_FORMAT. There is no iterator
      when that is the first leaf. */
  method WalkAll(db: Db) returns (started: bool, status: Status, all: seq<Entry>)
    requires db.Valid()
    modifies db.file`pos
    ensures Leaves(db.tree) != [] && (started <==> Legible(db.codec, Leaves(db.tree)[0]))
    ensures db.Lit(0) <= |db.es| && all == db.es[..db.Lit(0)] && (db.AllLit() ==> all == db.es)
    ensures started ==> status == if db.AllLit() then UdxDone else ErrFormat
    ensures forall i, j, k ::
      && 0 <= i < j < |all| && 0 <= k <= |all[i].key| && k <= |all[j].key| && all[i].key[..k] == all[j].key[..k]
      ==> k < |all[j].key| && (k < |all[i].key| ==> all[i].key[k] <= all[j].key[k])
  {
    hide Db.Valid, DbIter.Valid, Concat, Leaves, FirstDark, Legible;
    all, status := [], ErrFormat;
    FirstHeld(db);
    db.LitIs(0);
    db.InOrder(db.es[..db.Lit(0)]);
    var iter := CreateIter(db);
    started := iter != null;
    if !started {
      return;
    }
    var entry;
    status, entry := iter.Next();
    while status == UdxOk
      invariant iter.Valid() && iter.db == db && fresh(iter)
      invariant |all| <= db.Lit(0) <= |db.es| && all == db.es[..|all|]
      invariant status == (if |all| < db.Lit(0) then UdxOk else if db.AllLit() then UdxDone else ErrFormat)
      invariant status == UdxOk ==> entry == Some(db.es[|all|]) && iter.Consumed() == |all| + 1
      decreases |db.es| - |all|
    {
      all := all + [entry.value];
      status, entry := iter.Next();
    }
  }

  // ---------------------------------------------------------------- opening

  /** The index part of load_db_by_offset on a file that holds the tree: the database opens if and only if its root is
      within the size the reader accepts. */
  method OpenDb(file: File, codec: Codec, lower: byte -> byte, entryCount: nat, rootOffset: u64, firstLeafOffset: u64,
                ghost tree: ITree, ghost es: seq<Entry>, ghost m: nat) returns (status: Status, db: Db?)
    requires Lawful(codec) && Lowering(lower) && Held(codec, file.bytes, tree, es, m, 0)
    requires entryCount == |es| && rootOffset == tree.off && firstLeafOffset == First(tree)
    modifies file`pos
    ensures status == if Legible(codec, tree) then UdxOk else ErrIo
    ensures db != null <==> Legible(codec, tree)
    ensures db != null <==> |DataOf(tree)| <= 1048576 && |codec.compress(DataOf(tree))| <= 1048576
    ensures db != null ==> db.Valid() && db.file == file && db.codec == codec && db.lower == lower
                           && db.tree == tree && db.es == es && db.m == m
  {
    hide Held, DataOf, NodeAt, Legible, Lawful;
    NodeRead(codec, file.bytes, tree, es, m, 0);
    LegibleIs(codec, tree);
    LeavesReadable(codec, file.bytes, tree, es, m, 0);
    var node := ReadIndexNode(codec, file, rootOffset);
    if node.None? {
      return ErrIo, null;
    }
    db := new Db(file, codec, lower, entryCount, node.value, firstLeafOffset, tree, es, m);
    status := UdxOk;
  }

  /** The first leaf of a held tree is at an offset the file can have. */
  lemma LeavesReadable(c: Codec, b: Buffer, t: ITree, es: seq<Entry>, m: nat, next: nat)
    requires Held(c, b, t, es, m, next)
    ensures 0 < First(t) < OFFSET_LIMIT
  {
    hide Held, At, LeafShape;
    HeldFirst(c, b, t, es, m, next);
    HeldLinked(c, b, t, es, m, next);
    assert LeafHeld(c, b, Leaves(t)[0], NextOff(Leaves(t), 0, next));
  }
}
