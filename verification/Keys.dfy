// The key container: one entry per folded key, holding the items that share it.

module KeySets {
  import opened Bytes
  import opened Entries
  import opened BTreeValue
  import opened NodeGraph
  import opened BTrees
  import opened BTreeIters
  import opened BTreeRuns
  import opened Folding

  // ---------------------------------------------------------------- what the container holds

  datatype Added = Added(key: CString, address: u64, size: u32)

  function ItemOf(a: Added): KeyItem {
    KeyItem(a.key, a.address, a.size)
  }

  /** The items added under folded key k, in the order in which they were added. */
  ghost function ItemsFor(lower: byte -> byte, adds: seq<Added>, k: Buffer): seq<KeyItem> {
    if adds == [] then []
    else
      var a, r := adds[|adds| - 1], ItemsFor(lower, adds[..|adds| - 1], k);
      if Fold(lower, a.key) == k then r + [ItemOf(a)] else r
  }

  /** The entries are the folded keys of the additions, each with all of its items. */
  ghost predicate Gathers(lower: byte -> byte, c: seq<Entry>, adds: seq<Added>) {
    && Sorted(c)
    && (forall i :: 0 <= i < |c| ==> c[i].items != [] && c[i].items == ItemsFor(lower, adds, c[i].key))
    && (forall k: CString :: ItemsFor(lower, adds, k) != [] ==> Has(c, k))
  }

  /** The items of folded key k are those of the additions whose key, lowered character by character, is k, in the order
      of the additions. */
  lemma {:induction false} Picked(lower: byte -> byte, adds: seq<Added>, k: Buffer) returns (picked: seq<nat>)
    ensures |picked| == |ItemsFor(lower, adds, k)|
    ensures forall i :: 0 <= i < |picked| ==>
      && picked[i] < |adds|
      && var a := adds[picked[i]]; ItemsFor(lower, adds, k)[i] == KeyItem(a.key, a.address, a.size)
    ensures forall i, j :: 0 <= i < j < |picked| ==> picked[i] < picked[j]
    ensures forall j: nat :: j < |adds| ==>
      (j in picked <==> |adds[j].key| == |k| && forall x :: 0 <= x < |k| ==> k[x] == lower(adds[j].key[x]))
  {
    picked := [];
    if adds != [] {
      var n := |adds| - 1;
      picked := Picked(lower, adds[..n], k);
      FoldIs(lower, adds[n].key, k);
      if Fold(lower, adds[n].key) == k { picked := picked + [n]; }
    }
  }

  /** No entry holds an item that does not belong to it, and no addition is lost. */
  lemma GatheredAlike(lower: byte -> byte, c: seq<Entry>, adds: seq<Added>)
    requires Lowering(lower) && Gathers(lower, c, adds)
    ensures forall e, item :: e in c && item in e.items ==>
      |item.originalKey| == |e.key| && forall x :: 0 <= x < |e.key| ==> e.key[x] == lower(item.originalKey[x])
    ensures forall a :: a in adds ==> exists e :: e in c && KeyItem(a.key, a.address, a.size) in e.items
  {
    hide Sorted, Less, Rank, Fold;
    forall e, item | e in c && item in e.items
      ensures |item.originalKey| == |e.key| && forall x :: 0 <= x < |e.key| ==> e.key[x] == lower(item.originalKey[x])
    {
      var i :| 0 <= i < |c| && c[i] == e;
      var picked := Picked(lower, adds, e.key);
      var j :| 0 <= j < |e.items| && e.items[j] == item;
      assert picked[j] in picked;
    }
    forall a | a in adds ensures exists e :: e in c && KeyItem(a.key, a.address, a.size) in e.items {
      FoldStable(lower, a.key);
      var k: CString := Fold(lower, a.key);
      FoldIs(lower, a.key, k);
      var picked := Picked(lower, adds, k);
      var j :| 0 <= j < |adds| && adds[j] == a;
      var i :| 0 <= i < |picked| && picked[i] == j;
      var items := ItemsFor(lower, adds, k);
      assert items[i] == KeyItem(a.key, a.address, a.size);
      assert Has(c, k);
      var e := c[Rank(c, k)];
      assert e in c && e.items == items;
    }
  }

  /** The number of items over all entries. */
  ghost function Total(c: seq<Entry>): nat {
    if c == [] then 0 else Total(c[..|c| - 1]) + |c[|c| - 1].items|
  }

  /** One more item for folded key k. */
  function AddTo(c: seq<Entry>, k: CString, item: KeyItem): seq<Entry> {
    Put(c, Entry(k, (if Has(c, k) then c[Rank(c, k)].items else []) + [item]))
  }

  /** The entries after all additions, one by one. */
  ghost function Gathered(lower: byte -> byte, adds: seq<Added>): seq<Entry>
    requires Lowering(lower)
  {
    if adds == [] then []
    else
      var a := adds[|adds| - 1];
      FoldStable(lower, a.key);
      AddTo(Gathered(lower, adds[..|adds| - 1]), Fold(lower, a.key), ItemOf(a))
  }

  /** One by one, the additions end up as the entries of their folded keys. */
  lemma {:induction false} GatheredGathers(lower: byte -> byte, adds: seq<Added>)
    requires Lowering(lower)
    ensures Gathers(lower, Gathered(lower, adds), adds) && Total(Gathered(lower, adds)) == |adds|
  {
    hide Gathers, Total, AddTo;
    if adds == [] {
      NothingGathered(lower);
    } else {
      var n := |adds| - 1;
      GatheredGathers(lower, adds[..n]);
      FoldStable(lower, adds[n].key);
      AddGathers(lower, Gathered(lower, adds[..n]), adds[..n], adds[n], Fold(lower, adds[n].key));
      AddTotal(Gathered(lower, adds[..n]), Fold(lower, adds[n].key), ItemOf(adds[n]));
      assert adds[..n] + [adds[n]] == adds;
    }
  }

  lemma GatheredMore(lower: byte -> byte, adds: seq<Added>, a: Added)
    requires Lowering(lower)
    ensures NulFree(Fold(lower, a.key))
    ensures Gathered(lower, adds + [a]) == AddTo(Gathered(lower, adds), Fold(lower, a.key), ItemOf(a))
  {
    hide AddTo;
    FoldStable(lower, a.key);
    assert (adds + [a])[..|adds|] == adds;
  }

  /** The addition made last is the last item of the entry whose key is the added key with every character lowered. */
  lemma LastAdded(lower: byte -> byte, adds: seq<Added>, a: Added)
    requires Lowering(lower)
    ensures exists e ::
      && e in Gathered(lower, adds + [a]) && |e.key| == |a.key|
      && (forall x :: 0 <= x < |a.key| ==> e.key[x] == lower(a.key[x]))
      && e.items != [] && e.items[|e.items| - 1] == KeyItem(a.key, a.address, a.size)
  {
    hide Gathered, Sorted, Less, Rank;
    var more := adds + [a];
    assert more[..|adds|] == adds && more[|adds|] == a;
    FoldStable(lower, a.key);
    var k: CString := Fold(lower, a.key);
    GatheredGathers(lower, more);
    assert ItemsFor(lower, more, k) == ItemsFor(lower, adds, k) + [ItemOf(a)];
    assert Has(Gathered(lower, more), k);
    assert Gathered(lower, more)[Rank(Gathered(lower, more), k)] in Gathered(lower, more);
  }

  lemma NothingGathered(lower: byte -> byte)
    ensures Gathers(lower, [], []) && Total([]) == 0
  {
  }

  lemma AddGathers(lower: byte -> byte, c: seq<Entry>, adds: seq<Added>, a: Added, k: CString)
    requires Gathers(lower, c, adds) && k == Fold(lower, a.key)
    ensures Gathers(lower, AddTo(c, k, ItemOf(a)), adds + [a])
  {
    hide Less, Rank;
    var e := Entry(k, (if Has(c, k) then c[Rank(c, k)].items else []) + [ItemOf(a)]);
    var d, more := AddTo(c, k, ItemOf(a)), adds + [a];
    assert more[..|more| - 1] == adds;
    HasIff(c, k);
    PutSorted(c, e);
    HasIff(d, k);
    forall i | 0 <= i < |d| ensures d[i].items != [] && d[i].items == ItemsFor(lower, more, d[i].key) {
      PutMembers(c, e, d[i]);
      assert d[i] in d;
    }
    forall j: CString | ItemsFor(lower, more, j) != [] ensures Has(d, j) {
      if j != k {
        assert Has(c, j);
        HasIff(d, j);
        PutMembers(c, e, c[Rank(c, j)]);
      }
    }
  }

  lemma {:induction false} TotalSplit(a: seq<Entry>, b: seq<Entry>)
    ensures Total(a + b) == Total(a) + Total(b)
  {
    if b == [] {
      assert a + b == a;
    } else {
      TotalSplit(a, b[..|b| - 1]);
      assert (a + b)[..|a + b| - 1] == a + b[..|b| - 1];
    }
  }

  lemma AddTotal(c: seq<Entry>, k: CString, item: KeyItem)
    ensures Total(AddTo(c, k, item)) == Total(c) + 1
  {
    hide Less, Rank;
    var r, d := Rank(c, k), AddTo(c, k, item);
    if Has(c, k) {
      assert c == c[..r] + [c[r]] + c[r + 1..] && d == c[..r] + [d[r]] + c[r + 1..];
      TotalSplit(c[..r] + [c[r]], c[r + 1..]);
      TotalSplit(c[..r], [c[r]]);
      TotalSplit(c[..r] + [d[r]], c[r + 1..]);
      TotalSplit(c[..r], [d[r]]);
    } else {
      assert c == c[..r] + c[r..];
      TotalSplit(c[..r], c[r..]);
      TotalSplit(c[..r] + [d[r]], c[r..]);
      TotalSplit(c[..r], [d[r]]);
    }
  }

  /** The look-up in udx_keys_add with what follows it: the item of a known key is appended in place, a new key is
      set. */
  method AddItem(tree: BTree, folded: CString, item: KeyItem)
    requires tree.heap.Ok() && tree in tree.heap.trees && Alone(tree.heap.s)
    modifies tree`root, tree`count, tree`height, tree.heap`s, tree.heap.s.g.Keys
    ensures tree.heap.Ok() && tree.OnlyThis() && tree.OnlyFresh() && Alone(tree.heap.s)
    ensures tree.Items() == AddTo(old(tree.Items()), folded, item)
  {
    hide Heap.Ok, BTree.Items, BTree.KeyAt, Alone;
    ghost var c := tree.Items();
    var node, i := tree.Find(folded);
    if node != null {
      var entry := node.items[i];
      tree.WriteMut(node, i, Entry(entry.key, entry.items + [item]));
    } else {
      assert [] + [item] == [item];
      var prev := tree.Set(Entry(folded, [item]));
    }
  }

  /** struct udx_keys */
  class Keys {
    const tree: BTree
    const lower: byte -> byte
    var totalItems: int
    ghost var adds: seq<Added>

    /** The tree holds the additions and shares no node: the container keeps it to itself. */
    ghost predicate Valid()
      reads this, tree, tree.heap, tree.heap.s.g.Keys, tree.heap.trees
    {
      && tree.heap.Ok() && tree in tree.heap.trees && Alone(tree.heap.s) && Lowering(lower)
      && tree.Items() == Gathered(lower, adds)
      && totalItems == |adds| < U32_LIMIT
    }

    /** udx_keys_create */
    constructor (lower: byte -> byte, ghost heap: Heap)
      requires heap.Ok() && Alone(heap.s) && Lowering(lower)
      modifies heap`trees
      ensures Valid() && tree.heap == heap && this.lower == lower && adds == [] && tree.Items() == [] && fresh(tree)
    {
      var empty := NewTree(0, heap);
      this.tree := empty;
      this.lower := lower;
      totalItems, adds := 0, [];
    }

    /** udx_keys_add: refused only when the item counter is at its maximum. The item of a known key is appended in
        place. */
    method Add(key: CString, address: u64, size: u32) returns (ok: bool)
      requires Valid()
      modifies this, tree`root, tree`count, tree`height, tree.heap`s, tree.heap.s.g.Keys
      ensures Valid() && tree.OnlyThis() && tree.OnlyFresh()
      ensures ok <==> old(totalItems) < U32_LIMIT - 1
      ensures adds == old(adds) + if ok then [Added(key, address, size)] else []
      ensures ok ==> exists e ::
        && e in tree.Items() && |e.key| == |key| && (forall x :: 0 <= x < |key| ==> e.key[x] == lower(key[x]))
        && e.items != [] && e.items[|e.items| - 1] == KeyItem(key, address, size)
    {
      hide Heap.Ok, BTree.Items, BTree.KeyAt, Alone, Gathered;
      if totalItems == U32_LIMIT - 1 {
        return false;
      }
      FoldStable(lower, key);
      var folded := FoldString(lower, key);
      ghost var a := Added(key, address, size);
      GatheredMore(lower, adds, a);
      LastAdded(lower, adds, a);
      AddItem(tree, folded, KeyItem(key, address, size));
      ghost var live := tree.heap.s.g;  // the nodes stay as they are
      totalItems := totalItems + 1;
      adds := adds + [a];
      ok := true;
    }
  }

  /** struct udx_keys_iter */
  class KeysIter {
    const inner: Iter
    var started: bool
    /** How many entries have been handed out. */
    ghost var consumed: nat

    ghost function All(): seq<Entry>
      reads inner.btree, inner.btree.heap
    {
      inner.btree.Items()
    }

    ghost predicate Valid()
      reads this, inner, inner.btree, inner.btree.heap, inner.btree.heap.s.g.Keys, inner.btree.heap.trees
    {
      && inner.Tied() && consumed <= |All()|
      && (started <==> consumed > 0) && (inner.seeked <==> started)
      && (started ==> inner.Standing(consumed - 1))
    }

    /** udx_keys_iter_create */
    constructor (keys: Keys)
      requires keys.Valid()
      ensures Valid() && All() == keys.tree.Items() && consumed == 0 && fresh(inner)
    {
      var it := new Iter(keys.tree);
      inner := it;
      started, consumed := false, 0;
    }

    /** udx_keys_iter_next, up to the first time it finds nothing. */
    method Next() returns (entry: Option<Entry>)
      requires Valid()
      modifies this, inner
      ensures All() == old(All())
      ensures entry == if old(consumed) < |All()| then Some(All()[old(consumed)]) else None
      ensures entry.Some? ==> Valid() && consumed == old(consumed) + 1
    {
      hide Iter.Standing, Iter.Tied;
      if started { inner.Stands(consumed - 1); }
      var ok := inner.Next();
      if ok {
        ghost var live := inner.btree.heap.s.g;  // the nodes stay as they are
        started := true;
        inner.Stands(consumed);
        consumed := consumed + 1;
        return Some(inner.item);
      }
      return None;
    }

    /** udx_keys_iter_peek: the entry that next handed out last. */
    method Peek() returns (entry: Option<Entry>)
      requires Valid()
      ensures Valid()
      ensures entry == if consumed == 0 then None else Some(All()[consumed - 1])
    {
      hide Iter.Standing, Iter.Tied;
      if !started {
        return None;
      }
      inner.Stands(consumed - 1);
      return Some(inner.item);
    }
  }
}
