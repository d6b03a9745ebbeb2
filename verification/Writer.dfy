// Building the index: the recursion over the sorted keys, the file it writes and the leaf links it patches.

module Writers {
  import opened Bytes
  import opened Entries
  import opened Files
  import opened EntryFormat
  import opened IndexTrees
  import opened IndexImages
  import opened KeySets
  import opened Ordinary

  // ---------------------------------------------------------------- what a build step does to the file

  /** The file after the link of the last leaf so far, if any, has been set. */
  function Relinked(b: Buffer, link: nat, off: nat): (r: Buffer)
    requires link == 0 || link + 8 <= |b|
    ensures |r| == |b|
  {
    if link == 0 then b else Written(b, link, Le64(off))
  }

  /** The state of a build: the file, the place of the last leaf's link and the first leaf's offset. */
  datatype Progress = Progress(bytes: Buffer, link: nat, first: nat)

  ghost predicate Sound(p: Progress) {
    p.bytes != [] && (p.link == 0 || p.link + 8 <= |p.bytes|)
  }

  /** A step from p to q has appended the image of t and linked the leaf before it to it. */
  ghost predicate Appends(c: Codec, p: Progress, q: Progress, t: ITree) {
    && Sound(p)
    && q.bytes == Relinked(p.bytes, p.link, First(t)) + Image(c, t, 0)
    && q.link == |p.bytes| + Link(c, t)
    && q.first == if p.first == 0 then First(t) else p.first
  }

  /** x children of a node over es have been appended. */
  ghost predicate Row(c: Codec, es: seq<Entry>, m: nat, p: Progress, x: nat, q: Progress)
    requires 1 <= m < |es| && x <= m + 1
  {
    var ts := PlanTo(c, es, m, |p.bytes|, x);
    && Sound(p)
    && if x == 0 then q == p
       else && q.bytes == Relinked(p.bytes, p.link, First(ts[0])) + ImageTo(c, ts, x, 0)
            && q.link == |p.bytes| + SizeTo(c, ts, x - 1) + Link(c, ts[x - 1])
            && q.first == if p.first == 0 then First(ts[0]) else p.first
  }

  lemma {:induction false} FirstOfPlan(c: Codec, es: seq<Entry>, m: nat, lo: nat)
    requires 1 <= m
    ensures First(Plan(c, es, m, lo)) == lo
    decreases |es|
  {
    hide Part, PlanTo, Block, DataOf;
    if |es| > m {
      PlanChild(c, es, m, lo, 0);
      hide Plan;
      FirstOfPlan(c, Part(es, m, 0), m, lo);
    }
  }

  /** Nothing lies between the nodes of a planned tree: its first leaf is where the index begins, a child begins where
      the child before it ends, and a node follows its last child. */
  lemma {:induction false} PlanTight(c: Codec, es: seq<Entry>, m: nat, lo: nat, path: seq<nat>, u: ITree, i: nat)
    requires 1 <= m && Leads(Plan(c, es, m, lo), path, u) && u.INode? && i < |u.children|
    ensures First(Plan(c, es, m, lo)) == lo && First(u) == First(u.children[0])
    ensures var v := u.children[i];
      v.off + 8 + |c.compress(DataOf(v))| + (if v.ILeaf? then 8 else 0)
      == if i + 1 < |u.children| then First(u.children[i + 1]) else u.off
    decreases |path|
  {
    hide Part, PlanTo, DataOf, Leads;
    var t := Plan(c, es, m, lo);
    FirstOfPlan(c, es, m, lo);
    LeadsDown(t, path, u);
    PlanChild(c, es, m, lo, 0);
    if path == [] {
      PlanChild(c, es, m, lo, i);
      PlanEnd(c, Part(es, m, i), m, lo + SizeTo(c, t.children, i));
      if i < m {
        PlanChild(c, es, m, lo, i + 1);
        FirstOfPlan(c, Part(es, m, i + 1), m, lo + SizeTo(c, t.children, i + 1));
      }
    } else {
      var j := path[0];
      PlanChild(c, es, m, lo, j);
      PlanTight(c, Part(es, m, j), m, lo + SizeTo(c, t.children, j), path[1..], u, i);
    }
  }

  lemma LeadsDown(t: ITree, path: seq<nat>, u: ITree)
    requires Leads(t, path, u)
    ensures path == [] ==> u == t
    ensures path != [] ==> t.INode? && path[0] < |t.children| && Leads(t.children[path[0]], path[1..], u)
  {
  }

  /** The root of a planned tree comes last. */
  lemma PlanEnd(c: Codec, es: seq<Entry>, m: nat, lo: nat)
    requires 1 <= m
    ensures var t := Plan(c, es, m, lo);
      lo + Size(c, t) == t.off + 8 + |c.compress(DataOf(t))| + if t.ILeaf? then 8 else 0
  {
    hide Part, PlanTo, DataOf;
    if |es| > m { PlanChild(c, es, m, lo, 0); }
  }

  /** A step leaves the progress sound, and the file longer by the tree. */
  lemma AppendsSound(c: Codec, p: Progress, q: Progress, t: ITree)
    requires Appends(c, p, q, t) && Proper(t)
    ensures Sound(q) && |q.bytes| == |p.bytes| + Size(c, t)
  {
    hide Image, Link, Size;
    ImageSize(c, t, 0);
    Relink(c, t, 0, 0);
  }

  lemma PlanToLast(c: Codec, es: seq<Entry>, m: nat, lo: nat, x: nat)
    requires 1 <= m < |es| && x <= m
    ensures var ts, us := PlanTo(c, es, m, lo, x), PlanTo(c, es, m, lo, x + 1);
      && us == ts + [Plan(c, Part(es, m, x), m, lo + SizeTo(c, ts, x))]
      && us[..x] == ts && SizeTo(c, us, x) == SizeTo(c, ts, x)
  {
    hide Part, SizeTo, Plan;
    var ts, us := PlanTo(c, es, m, lo, x), PlanTo(c, es, m, lo, x + 1);
    assert us[..x] == ts;
    SizeToSame(c, ts, us, x);
  }

  lemma RowSound(c: Codec, es: seq<Entry>, m: nat, p: Progress, x: nat, q: Progress)
    requires 1 <= m < |es| && x <= m + 1 && Row(c, es, m, p, x, q)
    ensures Sound(q) && |q.bytes| == |p.bytes| + SizeTo(c, PlanTo(c, es, m, |p.bytes|, x), x)
    ensures x > 0 && p.bytes != [] ==> q.first != 0
  {
    hide Part, Plan, Written, Link, Size, Image;
    if x > 0 {
      var ts := PlanTo(c, es, m, |p.bytes|, x);
      PlanToLast(c, es, m, |p.bytes|, x - 1);
      PlanBuilt(c, Part(es, m, x - 1), m, |p.bytes| + SizeTo(c, PlanTo(c, es, m, |p.bytes|, x - 1), x - 1));
      ImageToSize(c, ts, x, 0);
      RelinkTo(c, ts, x, 0, 0);
      PlanPrefix(c, es, m, |p.bytes|, 1, x);
      PlanToLast(c, es, m, |p.bytes|, 0);
      assert ts[0] == ts[..1][0];
      FirstOfPlan(c, Part(es, m, 0), m, |p.bytes|);
    }
  }

  /** One more child. */
  lemma RowStep(c: Codec, es: seq<Entry>, m: nat, p: Progress, x: nat, q: Progress, r: Progress)
    requires 1 <= m < |es| && x <= m && Row(c, es, m, p, x, q)
    requires Appends(c, q, r, Plan(c, Part(es, m, x), m, |q.bytes|))
    ensures Row(c, es, m, p, x + 1, r)
  {
    hide Part, Plan, Written, Link, Size, Image, SizeTo;
    var lo := |p.bytes|;
    var ts, us := PlanTo(c, es, m, lo, x), PlanTo(c, es, m, lo, x + 1);
    var t := Plan(c, Part(es, m, x), m, |q.bytes|);
    RowSound(c, es, m, p, x, q);
    PlanToLast(c, es, m, lo, x);
    assert us == ts + [t];
    assert ImageTo(c, us, x + 1, 0) == ImageTo(c, us, x, First(t)) + Image(c, t, 0);
    if x > 0 { RowRelink(c, es, m, p, x, q, t); } else { NoSize(c, ts); assert ImageTo(c, us, 0, First(t)) == []; }
  }

  lemma NoSize(c: Codec, ts: seq<ITree>)
    ensures SizeTo(c, ts, 0) == 0
  {
  }

  /** Linking the last leaf of a row to the next child. */
  lemma RowRelink(c: Codec, es: seq<Entry>, m: nat, p: Progress, x: nat, q: Progress, t: ITree)
    requires 1 <= m < |es| && 0 < x <= m && Row(c, es, m, p, x, q) && Sound(q)
    ensures var ts, us := PlanTo(c, es, m, |p.bytes|, x), PlanTo(c, es, m, |p.bytes|, x + 1);
      && ts[0] == us[0]
      && Relinked(q.bytes, q.link, First(t)) == Relinked(p.bytes, p.link, First(us[0])) + ImageTo(c, us, x, First(t))
  {
    hide Part, Plan, Written, Link, Size, Image, SizeTo, ImageTo;
    var lo := |p.bytes|;
    var ts, us := PlanTo(c, es, m, lo, x), PlanTo(c, es, m, lo, x + 1);
    PlanToLast(c, es, m, lo, x);
    PlanToLast(c, es, m, lo, x - 1);
    PlanBuilt(c, Part(es, m, x - 1), m, lo + SizeTo(c, PlanTo(c, es, m, lo, x - 1), x - 1));
    assert us[..x][0] == us[0];
    RelinkTo(c, ts, x, 0, First(t));
    ImageToSame(c, ts, us, x, First(t));
    WrittenRight(Relinked(p.bytes, p.link, First(ts[0])), ImageTo(c, ts, x, 0),
                 SizeTo(c, ts, x - 1) + Link(c, ts[x - 1]), Le64(First(t)));
  }

  /** The cut as the writer computes it, without wrapping in 64 bits. */
  lemma CutWide(n: nat, m: nat, x: nat)
    requires n < U32_LIMIT && x < m < U32_LIMIT
    ensures n * (x + 1) < U64_LIMIT && Cut(n, m, x + 1) == n * (x + 1) / (m + 1)
  {
    CutIsDivision(n, m, x + 1);
    ScaleAtMost(n, x + 1, U32_LIMIT);
    ScaleAtMost(U32_LIMIT, n, U32_LIMIT - 1);
  }

  lemma RowStart(c: Codec, es: seq<Entry>, m: nat, p: Progress)
    requires 1 <= m < |es| && Sound(p)
    ensures Row(c, es, m, p, 0, p) && Cut(|es|, m, 0) == 0
  {
    CutStep(|es|, m, 0);
  }

  /** All children and the node's own block make the node. */
  lemma RowDone(c: Codec, es: seq<Entry>, m: nat, p: Progress, q: Progress, r: Progress)
    requires 1 <= m < |es| && Row(c, es, m, p, m + 1, q)
    requires r == q.(bytes := q.bytes + Block(c, DataOf(Plan(c, es, m, |p.bytes|))))
    ensures Appends(c, p, r, Plan(c, es, m, |p.bytes|))
  {
    hide Part, Plan, Written, Size, SizeTo, PlanTo, Block, DataOf;
    PlanChild(c, es, m, |p.bytes|, 0);
    var t := Plan(c, es, m, |p.bytes|);
    var k := Block(c, DataOf(t));
    var u := Relinked(p.bytes, p.link, First(t.children[0]));
    var v := ImageTo(c, t.children, m + 1, 0);
    assert u + v + k == u + (v + k);
  }

  /** Child x of a plan that fits the file fits where it is put. */
  lemma ChildFits(c: Codec, es: seq<Entry>, m: nat, lo: nat, x: nat)
    requires 1 <= m < |es| && x <= m
    ensures var t, ts := Plan(c, es, m, lo), PlanTo(c, es, m, lo, x);
      var u := Plan(c, Part(es, m, x), m, lo + SizeTo(c, ts, x));
      && (Fits(c, t) ==> Fits(c, u)) && SizeTo(c, ts, x) + Size(c, u) <= Size(c, t)
  {
    hide Part, PlanTo, Plan, Block, Fits, Size, SizeTo, DataOf;
    PlanChild(c, es, m, lo, x);
    PlanPrefix(c, es, m, lo, x, m + 1);
    NodeFits(c, es, m, lo);
    var t, ts := Plan(c, es, m, lo), PlanTo(c, es, m, lo, x);
    SizeToSame(c, t.children, ts, x);
    SizeToStep(c, t.children, x, m + 1);
  }

  /** A node fits when its children and its own data do. */
  lemma NodeFits(c: Codec, es: seq<Entry>, m: nat, lo: nat)
    requires 1 <= m < |es|
    ensures var t, ts := Plan(c, es, m, lo), PlanTo(c, es, m, lo, m + 1);
      && (Fits(c, t) <==> Sized(c, DataOf(t)) && m + 1 < U16_LIMIT && forall i :: 0 <= i < |ts| ==> Fits(c, ts[i]))
      && Size(c, t) == SizeTo(c, ts, m + 1) + |Block(c, DataOf(t))|
  {
    hide Part, PlanTo, Plan, Block, DataOf;
    PlanChild(c, es, m, lo, 0);
  }

  lemma {:induction false} TallestSame(ts: seq<ITree>, us: seq<ITree>, i: nat)
    requires i <= |ts| && i <= |us| && ts[..i] == us[..i]
    ensures Tallest(ts, i) == Tallest(us, i)
  {
    hide Height;
    if i > 0 {
      assert ts[..i - 1] == ts[..i][..i - 1] && us[..i - 1] == us[..i][..i - 1];
      assert ts[i - 1] == ts[..i][i - 1] && us[i - 1] == us[..i][i - 1];
      TallestSame(ts, us, i - 1);
    }
  }

  /** The bytes of one entry more. */
  lemma EntriesStep(es: seq<Entry>, i: nat, head: Buffer)
    ensures head + EntriesBytes(es[..0]) == head
    ensures i < |es| ==> head + EntriesBytes(es[..i]) + EntryBytes(es[i]) == head + EntriesBytes(es[..i + 1])
  {
    hide EntryBytes;
    if i < |es| { assert es[..i + 1][..i] == es[..i]; }
  }

  lemma LeafPlan(c: Codec, es: seq<Entry>, m: nat, lo: nat)
    requires 1 <= m && |es| <= m
    ensures var t := Plan(c, es, m, lo);
      && t == ILeaf(lo, es) && DataOf(t) == LeafData(es) && Height(t) == 1
      && (Fits(c, t) <==> Sized(c, LeafData(es)) && |es| < U16_LIMIT && forall i :: 0 <= i < |es| ==> Countable(es[i]))
  {
    hide Block, LeafData;
  }

  /** The children's offsets and the greatest height among them. */
  ghost predicate RowFields(c: Codec, es: seq<Entry>, m: nat, lo: nat, x: nat, children: seq<nat>, maxChild: nat) {
    && 1 <= m < |es| && x <= m + 1 && |children| == x
    && var ts := PlanTo(c, es, m, lo, x);
       && (forall i :: 0 <= i < x ==> children[i] == ts[i].off)
       && maxChild == Tallest(ts, x)
  }

  lemma RowFieldsStart(c: Codec, es: seq<Entry>, m: nat, lo: nat)
    requires 1 <= m < |es|
    ensures RowFields(c, es, m, lo, 0, [], 0)
  {
  }

  lemma RowFieldsStep(c: Codec, es: seq<Entry>, m: nat, lo: nat, x: nat, children: seq<nat>, maxChild: nat)
    requires RowFields(c, es, m, lo, x, children, maxChild) && x <= m
    ensures var u := PlanTo(c, es, m, lo, x + 1)[x];
      RowFields(c, es, m, lo, x + 1, children + [u.off], if Height(u) > maxChild then Height(u) else maxChild)
  {
    hide Part, Plan, SizeTo, PlanTo;
    PlanToLast(c, es, m, lo, x);
    var ts, us := PlanTo(c, es, m, lo, x), PlanTo(c, es, m, lo, x + 1);
    TallestSame(ts, us, x);
  }

  lemma RowFieldsDone(c: Codec, es: seq<Entry>, m: nat, lo: nat, children: seq<nat>, keys: seq<CString>, maxChild: nat)
    requires RowFields(c, es, m, lo, m + 1, children, maxChild)
    requires |keys| == m && forall i :: 0 <= i < m ==> keys[i] == LastKey(Part(es, m, i))
    ensures var t := Plan(c, es, m, lo);
      NodeData(children, keys) == DataOf(t) && Height(t) == maxChild + 1
      && t.off == lo + SizeTo(c, PlanTo(c, es, m, lo, m + 1), m + 1)
  {
    hide Part, Plan, SizeTo, PlanTo, NodeData;
    PlanNode(c, es, m, lo);
    var t := Plan(c, es, m, lo);
    assert children == Offs(t.children);
    assert keys == t.keys;
  }

  // ---------------------------------------------------------------- writing

  /** write_index_node: a compressed block at the end of the file; 0 on failure. */
  method WriteIndexNode(c: Codec, file: File, data: Buffer) returns (off: nat)
    requires file.pos == |file.bytes| && file.bytes != []
    modifies file
    ensures off != 0 <==> Sized(c, data) && |old(file.bytes)| + |Block(c, data)| < OFFSET_LIMIT
    ensures off != 0 <==>
      && |data| < 0x1_0000_0000 && |c.compress(data)| < 0x1_0000_0000
      && |old(file.bytes)| + 8 + |c.compress(data)| < 0x8000_0000_0000_0000
    ensures off != 0 ==> off == |old(file.bytes)| && file.bytes == old(file.bytes) + Block(c, data)
    ensures off != 0 ==> file.pos == |file.bytes|
  {
    if |data| >= U32_LIMIT {
      return 0;
    }
    var at := file.pos;
    var compressed := c.compress(data);
    if |compressed| >= U32_LIMIT {
      return 0;
    }
    var ok := file.Write(Le32(|data|));
    if ok { ok := file.Write(Le32(|compressed|)); }
    if ok { ok := file.Write(compressed); }
    if !ok {
      return 0;
    }
    assert file.bytes == old(file.bytes) + Block(c, data);
    off := at;
  }

  /** bptree_build_context */
  class Build {
    const codec: Codec
    const file: File
    const iter: KeysIter
    const maxElements: nat
    var lastLeafLinkOffset: nat
    var firstLeafOffset: nat

    constructor (codec: Codec, file: File, iter: KeysIter, maxElements: nat)
      ensures this.codec == codec && this.file == file && this.iter == iter && this.maxElements == maxElements
      ensures lastLeafLinkOffset == 0 && firstLeafOffset == 0
    {
      this.codec, this.file, this.iter, this.maxElements := codec, file, iter, maxElements;
      lastLeafLinkOffset, firstLeafOffset := 0, 0;
    }

    ghost function State(): Progress
      reads this, file
    {
      Progress(file.bytes, lastLeafLinkOffset, firstLeafOffset)
    }

    /** The file is positioned at its end, and the iterator can hand out n more entries. */
    ghost predicate Can(n: nat)
      reads this, file, iter, iter.inner, iter.inner.btree, iter.inner.btree.heap
      reads iter.inner.btree.heap.s.g.Keys, iter.inner.btree.heap.trees
    {
      && Sound(State()) && file.pos == |file.bytes| && 1 <= maxElements
      && iter.Valid() && iter.consumed + n <= |iter.All()|
    }

    /** The next n entries. */
    ghost function Coming(n: nat): seq<Entry>
      reads iter, iter.inner.btree, iter.inner.btree.heap
    {
      if iter.consumed + n <= |iter.All()| then iter.All()[iter.consumed..iter.consumed + n] else []
    }

    /** The tree for the next n entries. */
    ghost function Next(n: nat): ITree
      reads this, file, iter, iter.inner.btree, iter.inner.btree.heap
    {
      if maxElements == 0 then ILeaf(0, []) else Plan(codec, Coming(n), maxElements, |file.bytes|)
    }

    /** A build that has done nothing yet. */
    lemma Start(n: nat)
      requires iter.Valid() && iter.consumed == 0 && n == |iter.All()| && 1 <= maxElements
      requires file.pos == |file.bytes| && file.bytes != [] && lastLeafLinkOffset == 0
      ensures Can(n) && Coming(n) == iter.All() && Next(n) == Plan(codec, iter.All(), maxElements, |file.bytes|)
    {
      hide KeysIter.Valid, KeysIter.All, Plan;
      assert iter.All()[0..n] == iter.All();
    }

    /** Back-patching the previous leaf's link to this leaf. */
    method PatchLink(off: nat) returns (ok: bool)
      requires Sound(State()) && file.pos == |file.bytes|
      modifies file
      ensures ok && file.bytes == Relinked(old(file.bytes), lastLeafLinkOffset, off) && file.pos == |file.bytes|
    {
      ok := true;
      if lastLeafLinkOffset != 0 {
        var current := file.pos;
        ok := file.Seek(lastLeafLinkOffset);
        ok := file.Write(Le64(off));
        ok := file.Seek(current);
      }
    }

    /** The header and the serialised entries of a leaf, or nothing when an entry has too many items. */
    method LeafBuffer(n: nat) returns (ok: bool, buffer: Buffer)
      requires iter.Valid() && iter.consumed + n <= |iter.All()|
      modifies iter, iter.inner
      ensures iter.All() == old(iter.All())
      ensures ok <==> forall i :: 0 <= i < n ==> Countable(old(Coming(n))[i])
      ensures ok ==> buffer == LeafData(old(Coming(n))) && iter.Valid() && iter.consumed == old(iter.consumed) + n
    {
      hide KeysIter.Valid, KeysIter.All, Countable, EntryBytes, EntriesBytes, Le16;
      ghost var es := Coming(n);
      buffer := [2] + Le16(n);
      ghost var head := buffer;
      EntriesStep(es, 0, head);
      var i := 0;
      while i < n
        invariant 0 <= i <= n && iter.Valid() && iter.All() == old(iter.All())
        invariant iter.consumed == old(iter.consumed) + i
        invariant buffer == head + EntriesBytes(es[..i])
        invariant forall j :: 0 <= j < i ==> Countable(es[j])
      {
        var entry := iter.Next();
        if entry.None? {
          return false, buffer;
        }
        assert entry.value == es[i];
        ghost var live := iter.inner.btree.heap.s.g;  // the nodes stay as they are
        var written, out := SerializeInto(entry.value, buffer);
        if written == 0 {
          return false, buffer;
        }
        EntriesStep(es, i, head);
        buffer := out;
        i := i + 1;
      }
      assert es[..n] == es;
      ok := true;
    }

    /** build_leaf_node */
    method BuildLeafNode(n: nat) returns (off: nat, height: nat)
      requires Can(n) && n <= maxElements
      modifies this`lastLeafLinkOffset, this`firstLeafOffset, file, iter, iter.inner
      ensures iter.All() == old(iter.All())
      ensures off != 0 <==> Fits(codec, old(Next(n))) && |old(file.bytes)| + Size(codec, old(Next(n))) < OFFSET_LIMIT
      ensures off != 0 ==>
        && off == old(Next(n)).off && height == Height(old(Next(n)))
        && Appends(codec, old(State()), State(), old(Next(n)))
        && file.pos == |file.bytes| && iter.Valid() && iter.consumed == old(iter.consumed) + n
    {
      hide KeysIter.Valid, KeysIter.All, Block, LeafData, Countable, Fits, Size, Appends, Sized, Plan;
      ghost var es, t := Coming(n), Next(n);
      LeafPlan(codec, es, maxElements, |file.bytes|);
      height := 0;
      if n > 65535 {
        return 0, height;
      }
      var ok, buffer := LeafBuffer(n);
      if !ok {
        return 0, height;
      }
      ghost var live := iter.inner.btree.heap.s.g;  // the nodes stay as they are
      off := WriteLeaf(buffer, t);
      height := 1;
    }

    /** The file part of build_leaf_node: the block, an empty link behind it, and the link of the leaf before. */
    method WriteLeaf(buffer: Buffer, ghost t: ITree) returns (off: nat)
      requires Sound(State()) && file.pos == |file.bytes|
      requires t.ILeaf? && t.off == |file.bytes| && buffer == DataOf(t)
      modifies this`lastLeafLinkOffset, this`firstLeafOffset, file
      ensures off != 0 <==> Sized(codec, buffer) && |old(file.bytes)| + Size(codec, t) < OFFSET_LIMIT
      ensures off != 0 ==> off == t.off && Appends(codec, old(State()), State(), t) && file.pos == |file.bytes|
    {
      hide Block, LeafData, DataOf, Sized;
      off := WriteIndexNode(codec, file, buffer);
      if off == 0 {
        return 0;
      }
      var ok := file.Write(Le64(0));
      if !ok {
        return 0;
      }
      var current := file.pos;
      ghost var b, image := old(file.bytes), Block(codec, buffer) + Le64(0);
      assert file.bytes == b + image;
      if lastLeafLinkOffset != 0 { WrittenLeft(b, image, lastLeafLinkOffset, Le64(off)); }
      ok := PatchLink(off);
      lastLeafLinkOffset := current - 8;
      if firstLeafOffset == 0 {
        firstLeafOffset := off;
      }
    }

    /** x children of the node over es have been built; c0 entries had been handed out before the first. */
    ghost predicate InRow(es: seq<Entry>, p0: Progress, c0: nat, x: nat)
      reads this, file, iter, iter.inner, iter.inner.btree, iter.inner.btree.heap
      reads iter.inner.btree.heap.s.g.Keys, iter.inner.btree.heap.trees
    {
      var m := maxElements;
      && Sound(State()) && file.pos == |file.bytes|
      && 1 <= m < |es| && x <= m + 1 && Row(codec, es, m, p0, x, State())
      && (forall i :: 0 <= i < x ==> Fits(codec, PlanTo(codec, es, m, |p0.bytes|, x)[i]))
      && iter.Valid() && iter.consumed == c0 + Cut(|es|, m, x)
      && c0 + |es| <= |iter.All()| && iter.All()[c0..c0 + |es|] == es
    }

    /** Building child x. */
    method BuildChild(size: nat, x: nat, ghost es: seq<Entry>, ghost p0: Progress, ghost c0: nat)
      returns (off: nat, height: nat)
      requires InRow(es, p0, c0, x) && x <= maxElements < U32_LIMIT && |es| < U32_LIMIT
      requires size == Cut(|es|, maxElements, x + 1) - Cut(|es|, maxElements, x)
      modifies this`lastLeafLinkOffset, this`firstLeafOffset, file, iter, iter.inner
      ensures iter.All() == old(iter.All())
      ensures var t := Plan(codec, es, maxElements, |p0.bytes|);
        off == 0 ==> !(Fits(codec, t) && |p0.bytes| + Size(codec, t) < OFFSET_LIMIT)
      ensures off != 0 ==>
        && InRow(es, p0, c0, x + 1)
        && var u := PlanTo(codec, es, maxElements, |p0.bytes|, x + 1)[x]; off == u.off && height == Height(u)
      decreases |es|, 0
    {
      hide KeysIter.Valid, KeysIter.All, Row, Plan, PlanTo, Part, Fits, Size, SizeTo, Cut, Height, Appends;
      ghost var m, lo := maxElements, |p0.bytes|;
      RowSound(codec, es, m, p0, x, State());
      PartAt(es, m, x);
      ChildFits(codec, es, m, lo, x);
      PlanToLast(codec, es, m, lo, x);
      ghost var q, part := State(), Part(es, m, x);
      ghost var a := Cut(|es|, m, x);
      SliceOfSlice(iter.All(), c0, |es|, a, size);
      assert Coming(size) == part;
      PlanBuilt(codec, part, m, |q.bytes|);
      off, height := BuildNode(size);
      if off != 0 {
        RowStep(codec, es, m, p0, x, q, State());
        AppendsSound(codec, q, State(), Plan(codec, part, m, |q.bytes|));
      }
    }

    /** The data of an internal node: the children's offsets and the separators. */
    method NodeBytes(children: seq<nat>, keys: seq<CString>) returns (data: Buffer)
      ensures data == NodeData(children, keys)
    {
      data := [1] + Le16(|children|);
      ghost var head := data;
      var i := 0;
      while i < |children|
        invariant 0 <= i <= |children| && data == head + Words(children[..i])
      {
        assert children[..i + 1][..i] == children[..i];
        data := data + Le64(children[i]);
        i := i + 1;
      }
      assert children[..i] == children;
      ghost var body := data;
      i := 0;
      while i < |keys|
        invariant 0 <= i <= |keys| && data == body + Pool(keys[..i])
      {
        assert keys[..i + 1][..i] == keys[..i];
        data := data + (keys[i] + [0]);
        i := i + 1;
      }
      assert keys[..i] == keys;
    }

    /** build_bptree_node: the next n entries as a tree behind everything written so far. It succeeds exactly
        when all counts and sizes fit their fields and the file can hold the tree. */
    method BuildNode(n: nat) returns (off: nat, height: nat)
      requires Can(n) && n < U32_LIMIT && maxElements < U32_LIMIT
      modifies this`lastLeafLinkOffset, this`firstLeafOffset, file, iter, iter.inner
      ensures iter.All() == old(iter.All())
      ensures off != 0 <==> Fits(codec, old(Next(n))) && |old(file.bytes)| + Size(codec, old(Next(n))) < OFFSET_LIMIT
      ensures off != 0 ==>
        && off == old(Next(n)).off && height == Height(old(Next(n)))
        && Appends(codec, old(State()), State(), old(Next(n)))
        && file.pos == |file.bytes| && iter.Valid() && iter.consumed == old(iter.consumed) + n
      decreases n, 2
    {
      hide KeysIter.Valid, KeysIter.All, Row, Plan, PlanTo, Part, Fits;
      hide Size, SizeTo, Cut, Height, Appends, Block, DataOf;
      if n <= maxElements {
        off, height := BuildLeafNode(n);
        return;
      }
      ghost var es, p0, c0, m := Coming(n), State(), iter.consumed, maxElements;
      NodeFits(codec, es, m, |p0.bytes|);
      height := 0;
      var childCount := maxElements + 1;
      if childCount > 65535 {
        return 0, height;
      }
      RowStart(codec, es, m, p0);
      var ok, children, keys, maxChild := BuildChildren(n, es, p0, c0);
      if !ok {
        return 0, height;
      }
      ghost var q := State();
      RowFieldsDone(codec, es, m, |p0.bytes|, children, keys, maxChild);
      RowSound(codec, es, m, p0, m + 1, q);
      PartAt(es, m, m);
      var data := NodeBytes(children, keys);
      ghost var live := iter.inner.btree.heap.s.g;  // the nodes stay as they are
      off := WriteIndexNode(codec, file, data);
      if off != 0 {
        height := maxChild + 1;
        RowDone(codec, es, m, p0, q, State());
      }
    }

    /** The child loop of build_bptree_node: max_elements children with a separator behind each, and one more. */
    method BuildChildren(n: nat, ghost es: seq<Entry>, ghost p0: Progress, ghost c0: nat)
      returns (ok: bool, children: seq<nat>, keys: seq<CString>, maxChild: nat)
      requires InRow(es, p0, c0, 0) && 1 <= maxElements < n == |es| < U32_LIMIT && maxElements < U32_LIMIT
      modifies this`lastLeafLinkOffset, this`firstLeafOffset, file, iter, iter.inner
      ensures iter.All() == old(iter.All())
      ensures var t := Plan(codec, es, maxElements, |p0.bytes|);
        !ok ==> !(Fits(codec, t) && |p0.bytes| + Size(codec, t) < OFFSET_LIMIT)
      ensures ok ==>
        && InRow(es, p0, c0, maxElements + 1)
        && RowFields(codec, es, maxElements, |p0.bytes|, maxElements + 1, children, maxChild)
        && |keys| == maxElements && forall i :: 0 <= i < maxElements ==> keys[i] == LastKey(Part(es, maxElements, i))
      decreases n, 1
    {
      hide InRow, Plan, PlanTo, Part, Fits, Size, Cut, Height, RowFields, KeysIter.All;
      ghost var m, lo := maxElements, |p0.bytes|;
      RowFieldsStart(codec, es, m, lo);
      children, keys := [], [];
      var prev := 0;
      maxChild := 0;
      var x := 0;
      PartAt(es, m, 0);
      while x < maxElements
        invariant 0 <= x <= maxElements && InRow(es, p0, c0, x) && iter.All() == old(iter.All())
        invariant prev == Cut(n, m, x) && RowFields(codec, es, m, lo, x, children, maxChild)
        invariant |keys| == x && forall i :: 0 <= i < x ==> keys[i] == LastKey(Part(es, m, i))
      {
        CutWide(n, m, x);
        var cur := n * (x + 1) / (maxElements + 1);
        PartAt(es, m, x);
        var child, childHeight := BuildChild(cur - prev, x, es, p0, c0);
        if child == 0 {
          return false, children, keys, maxChild;
        }
        RowFieldsStep(codec, es, m, lo, x, children, maxChild);
        children := children + [child];
        if childHeight > maxChild {
          maxChild := childHeight;
        }
        var key := Separator(x, es, p0, c0);
        keys := keys + [key];
        prev := cur;
        x := x + 1;
      }
      PartAt(es, m, m);
      var last, lastHeight := BuildChild(n - prev, x, es, p0, c0);
      if last == 0 {
        return false, children, keys, maxChild;
      }
      RowFieldsStep(codec, es, m, lo, x, children, maxChild);
      children := children + [last];
      if lastHeight > maxChild {
        maxChild := lastHeight;
      }
      ok := true;
    }

    /** The separator behind child x: the key of the entry that the iterator handed out last. */
    method Separator(ghost x: nat, ghost es: seq<Entry>, ghost p0: Progress, ghost c0: nat) returns (key: CString)
      requires InRow(es, p0, c0, x + 1)
      ensures InRow(es, p0, c0, x + 1)
      ensures 1 <= maxElements < |es| && x <= maxElements && key == LastKey(Part(es, maxElements, x))
    {
      hide KeysIter.Valid, KeysIter.All, Row, Part, Fits, Cut, PlanTo;
      PartAt(es, maxElements, x);
      ghost var end := Cut(|es|, maxElements, x + 1);
      SliceOfSlice(iter.All(), c0, |es|, end - 1, 1);
      assert iter.All()[c0 + end - 1..c0 + end][0] == es[end - 1..end][0];
      var entry := iter.Peek();
      key := entry.value.key;
    }
  }

  /** The tree that build_bptree makes of the entries. */
  ghost function IndexOf(c: Codec, es: seq<Entry>, lo: nat): ITree {
    Plan(c, es, MaxElements(|es|), lo)
  }

  /** build_bptree: the index over all keys, behind what the file holds. The key count has been checked by
      udx_db_builder_finalize. */
  method BuildIndex(keys: Keys, codec: Codec, file: File) returns (ok: bool, root: nat, firstLeaf: nat, height: nat)
    requires keys.Valid() && keys.tree.Items() != [] && |keys.tree.Items()| < U32_LIMIT
    requires file.pos == |file.bytes| && file.bytes != []
    modifies file
    ensures var es, lo := keys.tree.Items(), |old(file.bytes)|;
      var t := IndexOf(codec, es, lo);
      && (ok <==> Fits(codec, t) && lo + Size(codec, t) < OFFSET_LIMIT)
      && (ok ==> file.bytes == old(file.bytes) + Image(codec, t, 0) && file.pos == |file.bytes|
                 && root == t.off && firstLeaf == lo && height == Height(t))
    ensures ok ==> (height == 1 <==> |keys.tree.Items()| <= 64) && (height <= 2 <==> |keys.tree.Items()| <= 67117056)
    ensures ok ==> 1 <= height <= 3
    ensures ok ==>
      var es := keys.tree.Items();
      var t := IndexOf(codec, es, |old(file.bytes)|);
      && |file.bytes| == root + 8 + |codec.compress(DataOf(t))| + (if t.ILeaf? then 8 else 0)
      && (t.INode? ==>
            var m := |t.keys|;
            && |t.children| == m + 1 && 64 <= m <= 8192
            && (m > 64 ==> (m - 1) * (m - 1) <= |es|) && (m < 8192 ==> |es| < m * m))
    ensures
      && (forall x: Buffer :: |codec.compress(x)| <= |x| + |x| / 1000 + 64)
      && (forall e :: e in keys.tree.Items() ==> |EntryBytes(e)| <= 120)
      && |old(file.bytes)| < 0x7000_0000_0000_0000
      ==> ok
  {
    hide Keys.Valid, KeysIter.Valid, KeysIter.All, BTrees.BTree.Items, Plan, Fits, Size;
    hide Image, Height, MaxElements, Appends, Build.Can, Built, Proper, EntryBytes, DataOf;
    ghost var es, lo := keys.tree.Items(), |file.bytes|;
    var keyCount := KeyCount(keys);
    var maxElements := MaxElements(keyCount);
    var iter := new KeysIter(keys);
    ghost var live := iter.inner.btree.heap.s.g;  // the nodes stay as they are
    var ctx := new Build(codec, file, iter, maxElements);
    MaxElementsBounds(keyCount);
    ctx.Start(keyCount);
    FirstOfPlan(codec, es, maxElements, lo);
    ghost var p := ctx.State();
    root, height := ctx.BuildNode(keyCount);
    ok, firstLeaf := root != 0, ctx.firstLeafOffset;
    if ok { AppendsAlone(codec, p, ctx.State(), IndexOf(codec, es, lo)); }
    PlanBuilt(codec, es, maxElements, lo);
    HeightBounds(IndexOf(codec, es, lo), es);
    IndexMeans(codec, es, lo);
  }

  /** The index in plain words: where it ends, how many children its root has, and that over short entries it fits. */
  lemma IndexMeans(c: Codec, es: seq<Entry>, lo: nat)
    requires 0 < |es| < U32_LIMIT
    ensures var t := IndexOf(c, es, lo);
      && lo + Size(c, t) == t.off + 8 + |c.compress(DataOf(t))| + (if t.ILeaf? then 8 else 0)
      && |Image(c, t, 0)| == Size(c, t)
      && (t.INode? ==>
            var m := |t.keys|;
            && |t.children| == m + 1 && 64 <= m <= 8192
            && (m > 64 ==> (m - 1) * (m - 1) <= |es|) && (m < 8192 ==> |es| < m * m))
    ensures
      && (forall x: Buffer :: |c.compress(x)| <= |x| + |x| / 1000 + 64)
      && (forall e :: e in es ==> |EntryBytes(e)| <= 120) && lo < 0x7000_0000_0000_0000
      ==> Fits(c, IndexOf(c, es, lo)) && lo + Size(c, IndexOf(c, es, lo)) < OFFSET_LIMIT
  {
    hide Plan, Fits, Size, Image, MaxElements, EntryBytes, DataOf, Built;
    var m := MaxElements(|es|);
    CapacityIs(|es|);
    PlanEnd(c, es, m, lo);
    PlanBuilt(c, es, m, lo);
    BuiltKind(IndexOf(c, es, lo), es, m);
    ImageSize(c, IndexOf(c, es, lo), 0);
    if
      && (forall x: Buffer :: |c.compress(x)| <= |x| + |x| / 1000 + 64)
      && (forall e :: e in es ==> |EntryBytes(e)| <= 120) && lo < 0x7000_0000_0000_0000
    {
      OrdinaryIndex(c, es, lo);
    }
  }

  lemma MaxElementsBounds(n: nat)
    ensures 64 <= MaxElements(n) <= 8192
  {
    hide Isqrt;
  }

  /** The first tree of a build. */
  lemma AppendsAlone(c: Codec, p: Progress, q: Progress, t: ITree)
    requires Appends(c, p, q, t) && p.link == 0 && p.first == 0
    ensures q.bytes == p.bytes + Image(c, t, 0) && q.first == First(t)
  {
  }

  /** udx_keys_count */
  method KeyCount(keys: Keys) returns (n: nat)
    requires keys.Valid()
    ensures n == |keys.tree.Items()| && keys.Valid()
  {
    n := keys.tree.count;
  }
}
