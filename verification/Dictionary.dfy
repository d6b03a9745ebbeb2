// A whole database: entries go in through the builder, the file is finalised, and values come out by key.

module Dictionaries {
  import opened Bytes
  import opened Entries
  import opened Files
  import opened Folding
  import opened IndexTrees
  import opened IndexLookups
  import opened IndexImages
  import opened IndexStores
  import opened NodeGraph
  import opened BTrees
  import opened KeySets
  import opened Writers
  import opened Readers
  import opened Ordinary
  import opened EntryFormat
  import C = Chunks

  datatype BuildStatus = BuildOk | InvalidParam | Internal

  /** One item of a value entry: a key as it was added, and its data. */
  datatype Valued = Valued(originalKey: CString, data: Buffer)

  // ---------------------------------------------------------------- which values belong to a key

  /** The keys and values added under folded key k, in the order in which they were added. */
  ghost function ValuesFor(lower: byte -> byte, adds: seq<Added>, values: seq<Buffer>, k: Buffer): seq<Valued>
    requires |adds| == |values|
  {
    if adds == [] then []
    else
      var n := |adds| - 1;
      var r := ValuesFor(lower, adds[..n], values[..n], k);
      if Fold(lower, adds[n].key) == k then r + [Valued(adds[n].key, values[n])] else r
  }

  /** The values of folded key k are those of the additions whose key, lowered character by character, is k, in the
      order of the additions. */
  lemma {:induction false} ValuesPicked(lower: byte -> byte, adds: seq<Added>, values: seq<Buffer>, k: Buffer)
    returns (picked: seq<nat>)
    requires |adds| == |values|
    ensures |picked| == |ValuesFor(lower, adds, values, k)|
    ensures forall i :: 0 <= i < |picked| ==>
      picked[i] < |adds| && ValuesFor(lower, adds, values, k)[i] == Valued(adds[picked[i]].key, values[picked[i]])
    ensures forall i, j :: 0 <= i < j < |picked| ==> picked[i] < picked[j]
    ensures forall j: nat :: j < |adds| ==>
      (j in picked <==> |adds[j].key| == |k| && forall x :: 0 <= x < |k| ==> k[x] == lower(adds[j].key[x]))
  {
    picked := [];
    if adds != [] {
      var n := |adds| - 1;
      picked := ValuesPicked(lower, adds[..n], values[..n], k);
      FoldIs(lower, adds[n].key, k);
      if Fold(lower, adds[n].key) == k { picked := picked + [n]; }
    }
  }

  /** Every addition points at the block that holds its value. */
  ghost predicate Matched(adds: seq<Added>, values: seq<Buffer>, blocks: seq<C.Placed>) {
    && |adds| == |values|
    && forall i :: 0 <= i < |adds| ==> C.Placed(adds[i].address, values[i]) in blocks && adds[i].size == |values[i]|
  }

  /** A new block keeps the match, and so does an addition that points at it. */
  lemma MatchedMore(adds: seq<Added>, values: seq<Buffer>, blocks: seq<C.Placed>, a: Added, value: Buffer)
    requires blocks != [] && Matched(adds, values, blocks[..|blocks| - 1])
    requires blocks[|blocks| - 1] == C.Placed(a.address, value) && a.size == |value|
    ensures Matched(adds, values, blocks) && Matched(adds + [a], values + [value], blocks)
  {
  }

  lemma {:induction false} ItemsMatch(lower: byte -> byte, adds: seq<Added>, values: seq<Buffer>,
                                      blocks: seq<C.Placed>, k: Buffer)
    requires Matched(adds, values, blocks)
    ensures var items, vs := ItemsFor(lower, adds, k), ValuesFor(lower, adds, values, k);
      && |items| == |vs|
      && forall i :: 0 <= i < |items| ==>
           items[i].originalKey == vs[i].originalKey && items[i].size == |vs[i].data|
           && C.Placed(items[i].address, vs[i].data) in blocks
    decreases |adds|
  {
    if adds != [] {
      ItemsMatch(lower, adds[..|adds| - 1], values[..|adds| - 1], blocks, k);
    }
  }

  // ---------------------------------------------------------------- the builder

  /** struct udx_db_builder */
  class Builder {
    const codec: Codec
    const file: File
    const keys: Keys
    const chunks: C.ChunkWriter
    ghost var values: seq<Buffer>

    ghost predicate Valid()
      reads this, file, chunks, keys, keys.tree, keys.tree.heap, keys.tree.heap.s.g.Keys, keys.tree.heap.trees
    {
      && chunks.file == file && chunks.codec == codec && keys.Valid() && chunks.Valid() && !chunks.finished
      && Matched(keys.adds, values, chunks.blocks)
    }

    /** udx_db_builder_create, without the header it reserves. */
    constructor (codec: Codec, file: File, lower: byte -> byte, ghost heap: Heap)
      requires heap.Ok() && Alone(heap.s) && Lowering(lower) && file.pos == |file.bytes| && file.bytes != []
      modifies heap`trees
      ensures Valid() && values == [] && keys.adds == [] && this.file == file && this.codec == codec
      ensures fresh(keys) && fresh(keys.tree) && fresh(chunks) && chunks.Now() == C.Packing([], [], |file.bytes|)
      ensures keys.lower == lower && keys.tree.heap == heap
    {
      hide Keys.Valid, C.ChunkWriter.Valid;
      var container := new Keys(lower, heap);
      ghost var live := heap.s.g;  // the nodes stay as they are
      var chunkWriter := new C.ChunkWriter(codec, file);
      this.codec, this.file, this.keys, this.chunks := codec, file, container, chunkWriter;
      values := [];
    }

    /** udx_db_builder_add_entry: it succeeds if and only if the value can be packed and the item counter is not at its
        maximum. */
    method AddEntry(key: CString, value: Buffer) returns (status: BuildStatus)
      requires Valid() && |value| < U32_LIMIT
      modifies this, keys, keys.tree`root, keys.tree`count, keys.tree`height, keys.tree.heap`s, keys.tree.heap.s.g.Keys
      modifies chunks, file
      ensures Valid() && keys.tree.OnlyFresh()
      ensures status == InvalidParam <==> value == []
      ensures status == BuildOk <==>
        C.Packed(codec, old(chunks.Now()), value).Some? && |old(keys.adds)| < U32_LIMIT - 1
      ensures status == BuildOk ==>
        && C.Packed(codec, old(chunks.Now()), value) == Some(chunks.Now())
        && values == old(values) + [value] && |value| <= |chunks.buffer|
        && C.LastAddress(chunks.Now(), |value|) < U64_LIMIT
        && keys.adds == old(keys.adds) + [Added(key, C.LastAddress(chunks.Now(), |value|), |value|)]
      ensures status == BuildOk <==>
        && value != [] && |old(chunks.buffer)| + |value| < 0x1_0000_0000 && |old(keys.adds)| < 0xFFFF_FFFF
        && (|old(chunks.buffer)| < 65536
            || (|old(chunks.chunks)| < 0x8000_0000
                && |old(file.bytes)| + 8 + |codec.compress(old(chunks.buffer))| < 0x8000_0000_0000_0000))
      ensures status == BuildOk ==>
        && |keys.adds| == |old(keys.adds)| + 1
        && var a := keys.adds[|old(keys.adds)|];
           && a.key == key && a.size == |value|
           && a.address == if |old(chunks.buffer)| < 65536 then |old(chunks.chunks)| * 65536 + |old(chunks.buffer)|
                           else (|old(chunks.chunks)| + 1) * 65536
      ensures status != BuildOk ==> values == old(values) && keys.adds == old(keys.adds)
    {
      hide Keys.Valid, C.ChunkWriter.Valid, BTree.OnlyThis, Matched, C.Packed;
      KeysCounted(keys);
      C.PackedMeans(codec, chunks.Now(), value);
      if |value| == 0 {
        assert C.Packed(codec, chunks.Now(), value).None? by { PackedEmpty(codec, chunks.Now(), value); }
        return InvalidParam;
      }
      ghost var live := keys.tree.heap.s.g;  // the nodes stay as they are
      var address := chunks.AddBlock(value);
      if address == C.INVALID_ADDRESS {
        return Internal;
      }
      ghost var live2 := keys.tree.heap.s.g;  // the nodes stay as they are
      MatchedMore(keys.adds, values, chunks.blocks, Added(key, address, |value|), value);
      var ok := keys.Add(key, address, |value|);
      if !ok {
        assert keys.adds == old(keys.adds);
        return Internal;
      }
      ghost var live3 := keys.tree.heap.s.g;  // the nodes stay as they are
      values := values + [value];
      status := BuildOk;
    }

    /** udx_db_builder_finalize, without the header it writes back: the chunk table, then the index. It succeeds if and
        only if there is an entry, the store can be closed, and the index fits behind it. */
    method Finalize() returns (status: BuildStatus, handle: Handle, ghost store: Store)
      requires Valid()
      modifies chunks, file
      ensures status == InvalidParam <==> keys.adds == []
      ensures status == BuildOk <==>
        var lo := C.ClosedSize(codec, old(chunks.Now()));
        var t := IndexOf(codec, keys.tree.Items(), lo);
        keys.adds != [] && C.Closes(codec, old(chunks.Now())) && Fits(codec, t) && lo + Size(codec, t) < OFFSET_LIMIT
      ensures keys.tree.Items() == old(keys.tree.Items()) && keys.Valid()
      ensures status == BuildOk ==>
        && store.lo == C.ClosedSize(codec, old(chunks.Now())) && store.chunks == C.ClosedChunks(old(chunks.Now()))
        && store.es == keys.tree.Items() && store.tree == IndexOf(codec, store.es, store.lo)
        && store.blocks == chunks.blocks
        && Stocked(codec, file.bytes, handle, store)
        && Matched(keys.adds, values, store.blocks)
    {
      hide Keys.Valid, C.ChunkWriter.Valid, C.Finished, C.HasTable, Image, Fits;
      hide Size, MaxElements, BTree.Items, Plan, C.Closes, C.ClosedSize, C.ClosedChunks;
      handle, store := Handle(0, 0, 0, 0), Store(0, ILeaf(0, []), [], [], [], []);
      KeysEmpty(keys);
      KeysCounted(keys);
      var keyCount := KeyCount(keys);
      if keyCount == 0 {
        return InvalidParam, handle, store;
      }
      if keyCount >= U32_LIMIT {
        return Internal, handle, store;
      }
      ghost var live := keys.tree.heap.s.g;  // the nodes stay as they are
      var table := chunks.Finish();
      if table == 0 {
        return Internal, handle, store;
      }
      FinishedStore(chunks, table);
      ghost var before := file.bytes;
      ghost var live2 := keys.tree.heap.s.g;  // the nodes stay as they are
      var ok, root, firstLeaf, _ := BuildIndex(keys, codec, file);
      if !ok {
        return Internal, handle, store;
      }
      ghost var live3 := keys.tree.heap.s.g;  // the nodes stay as they are
      store := Store(|before|, IndexOf(codec, keys.tree.Items(), |before|), keys.tree.Items(),
                     chunks.offsets, chunks.chunks, chunks.blocks);
      handle := Handle(table, root, firstLeaf, keyCount);
      FinishedGrown(codec, before, Image(codec, store.tree, 0), table, store);
      StockedNow(codec, before, handle, store);
      status := BuildOk;
    }
  }

  /** What a database header records: the chunk table, the index root, the first leaf and the number of entries. */
  datatype Handle = Handle(table: nat, root: nat, firstLeaf: nat, entryCount: nat)

  /** What a finalised file holds. */
  datatype Store = Store(lo: nat, tree: ITree, es: seq<Entry>, offsets: seq<nat>, chunks: seq<Buffer>,
                         blocks: seq<C.Placed>)

  /** The chunks and their table are in the file, and so is the index. */
  ghost predicate Stocked(c: Codec, b: Buffer, h: Handle, s: Store) {
    && C.Finished(c, b, h.table, s.offsets, s.chunks, s.blocks)
    && Held(c, b, s.tree, s.es, MaxElements(|s.es|), 0)
    && h.root == s.tree.off < OFFSET_LIMIT && h.firstLeaf == First(s.tree) < OFFSET_LIMIT && h.entryCount == |s.es|
  }

  lemma KeysEmpty(keys: Keys)
    requires keys.Valid()
    ensures keys.tree.Items() == [] <==> keys.adds == []
    ensures Sorted(keys.tree.Items())
  {
    hide Heap.Ok, BTree.Items, Gathered;
    GatheredGathers(keys.lower, keys.adds);
    if keys.adds != [] {
      var a := keys.adds[|keys.adds| - 1];
      FoldStable(keys.lower, a.key);
      var k: CString := Fold(keys.lower, a.key);
      assert ItemsFor(keys.lower, keys.adds, k) != [];
    }
  }

  lemma KeysCounted(keys: Keys)
    requires keys.Valid()
    ensures keys.totalItems == |keys.adds| < U32_LIMIT && |keys.tree.Items()| <= |keys.adds|
  {
    hide Heap.Ok, BTree.Items, Gathered;
    GatheredGathers(keys.lower, keys.adds);
    EntriesAtMost(keys.tree.Items());
  }

  lemma {:induction false} EntriesAtMost(c: seq<Entry>)
    requires forall i :: 0 <= i < |c| ==> c[i].items != []
    ensures |c| <= Total(c)
  {
    if c != [] { EntriesAtMost(c[..|c| - 1]); }
  }

  lemma PackedEmpty(c: Codec, w: C.Packing, data: Buffer)
    requires data == []
    ensures C.Packed(c, w, data).None?
  {
  }

  lemma FinishedStore(w: C.ChunkWriter, table: nat)
    requires w.Valid() && w.finished && C.HasTable(w.file.bytes, table, w.offsets)
    ensures C.Finished(w.codec, w.file.bytes, table, w.offsets, w.chunks, w.blocks)
    ensures w.file.pos == |w.file.bytes| && w.file.bytes != []
  {
    hide C.OnFile, C.Accounts, C.HasTable;
    C.CapacityGrows(w.offsetCapacity);
  }

  lemma FinishedGrown(c: Codec, b: Buffer, tail: Buffer, table: nat, s: Store)
    requires C.Finished(c, b, table, s.offsets, s.chunks, s.blocks) && |b + tail| < OFFSET_LIMIT
    ensures C.Finished(c, b + tail, table, s.offsets, s.chunks, s.blocks)
  {
    hide C.OnFile, C.Accounts, Words, Le64;
    C.OnFileGrown(c, b, tail, s.offsets, s.chunks);
    AtGrown(b, tail, table, Le64(|s.offsets|) + Words(s.offsets));
  }

  lemma StockedNow(c: Codec, before: Buffer, h: Handle, s: Store)
    requires before != [] && s.es != [] && Sorted(s.es) && s.lo == |before|
    requires s.tree == IndexOf(c, s.es, s.lo) && Fits(c, s.tree) && s.lo + Size(c, s.tree) < OFFSET_LIMIT
    requires h.root == s.tree.off && h.firstLeaf == s.lo && h.entryCount == |s.es|
    requires C.Finished(c, before + Image(c, s.tree, 0), h.table, s.offsets, s.chunks, s.blocks)
    ensures Stocked(c, before + Image(c, s.tree, 0), h, s)
  {
    hide Fits, Size, Image, Plan, MaxElements, Held, C.Finished, Sorted;
    var m := MaxElements(|s.es|);
    MaxElementsBounds(|s.es|);
    FirstOfPlan(c, s.es, m, s.lo);
    PlanDownhill(c, s.es, m, s.lo);
    WrittenIsHeld(c, before, [], s.es, m);
    assert before + Image(c, s.tree, 0) + [] == before + Image(c, s.tree, 0);
  }

  // ---------------------------------------------------------------- values by key

  /** All items of an entry fetched without a cache; None when one of them cannot be. */
  ghost function FetchedAll(c: Codec, b: Buffer, offsets: seq<nat>, items: seq<KeyItem>): Option<seq<Valued>> {
    if items == [] then Some([])
    else
      var n := |items| - 1;
      match FetchedAll(c, b, offsets, items[..n])
      case None => None
      case Some(r) =>
        match C.Fetched(c, b, offsets, items[n].address, items[n].size)
        case None => None
        case Some(d) => Some(r + [Valued(items[n].originalKey, d)])
  }

  lemma {:induction false} FetchedPrefix(c: Codec, b: Buffer, offsets: seq<nat>, items: seq<KeyItem>, n: nat)
    requires n <= |items| && FetchedAll(c, b, offsets, items[..n]).None?
    ensures FetchedAll(c, b, offsets, items).None?
    decreases |items|
  {
    if n < |items| {
      assert items[..|items| - 1][..n] == items[..n];
      FetchedPrefix(c, b, offsets, items[..|items| - 1], n);
    } else {
      assert items[..n] == items;
    }
  }

  /** All items are fetched if and only if each one is. */
  lemma {:induction false} FetchedAllIff(c: Codec, b: Buffer, offsets: seq<nat>, items: seq<KeyItem>, vs: seq<Valued>)
    ensures FetchedAll(c, b, offsets, items) == Some(vs) <==>
      && |vs| == |items|
      && forall i :: 0 <= i < |items| ==>
           && vs[i].originalKey == items[i].originalKey
           && C.Fetched(c, b, offsets, items[i].address, items[i].size) == Some(vs[i].data)
    decreases |items|
  {
    hide C.Fetched;
    if items != [] && vs != [] {
      var n := |items| - 1;
      FetchedAllIff(c, b, offsets, items[..n], vs[..|vs| - 1]);
      assert vs == vs[..|vs| - 1] + [vs[|vs| - 1]];
    }
  }

  /** udx_db_value_entry_fetch: the data of every item of an entry, through the chunk cache. */
  method FetchValues(reader: C.ChunkReader, entry: Entry) returns (status: Status, values: seq<Valued>)
    requires reader.Valid()
    modifies reader`cachedData, reader`cachedIndex, reader`hasCache, reader.file`pos
    ensures reader.Valid()
    ensures var r := FetchedAll(reader.codec, reader.file.bytes, reader.offsets, entry.items);
      && status == (if entry.items == [] then UdxNotFound else if r.None? then ErrFormat else UdxOk)
      && (status == UdxOk ==> Some(values) == r)
  {
    hide C.Fetched;
    values := [];
    if |entry.items| == 0 {
      return UdxNotFound, values;
    }
    ghost var c, b, offsets := reader.codec, reader.file.bytes, reader.offsets;
    var i := 0;
    while i < |entry.items|
      invariant 0 <= i <= |entry.items| && reader.Valid()
      invariant FetchedAll(c, b, offsets, entry.items[..i]) == Some(values)
    {
      var item := entry.items[i];
      assert entry.items[..i + 1][..i] == entry.items[..i];
      var data := reader.GetBlock(item.address, item.size);
      if data.None? {
        FetchedPrefix(c, b, offsets, entry.items, i + 1);
        return ErrFormat, values;
      }
      values := values + [Valued(item.originalKey, data.value)];
      i := i + 1;
    }
    assert entry.items[..i] == entry.items;
    status := UdxOk;
  }

  /** udx_db_value_entry_lookup */
  method ValueLookup(db: Db, reader: C.ChunkReader, key: CString) returns (status: Status, values: seq<Valued>)
    requires db.Valid() && reader.Valid() && reader.file == db.file && reader.codec == db.codec
    modifies reader`cachedData, reader`cachedIndex, reader`hasCache, db.file`pos
    ensures db.Valid() && reader.Valid()
    ensures var k, es := Fold(db.lower, key), db.es;
      if !WayLegible(db.codec, db.tree, k) then status == ErrFormat
      else if !Has(es, k) || k in Seps(db.tree) then status == UdxNotFound
      else
        var items := es[Rank(es, k)].items;
        var r := FetchedAll(db.codec, db.file.bytes, reader.offsets, items);
        && status == (if items == [] then UdxNotFound else if r.None? then ErrFormat else UdxOk)
        && (status == UdxOk ==> Some(values) == r)
  {
    hide Held, Lawful, Seps, FetchedAll, WayLegible;
    values := [];
    var entry;
    status, entry := db.Lookup(key);
    if status != UdxOk {
      return;
    }
    status, values := FetchValues(reader, entry.value);
  }

  // ---------------------------------------------------------------- the whole way

  /** The chunks that the items point into compress to below 4 GiB. */
  ghost predicate Intact(c: Codec, chunks: seq<Buffer>, items: seq<KeyItem>) {
    forall i :: 0 <= i < |items| ==> |c.compress(C.HomeAt(chunks, items[i].address))| < U32_LIMIT
  }

  /** Items that point at blocks of a finished store are all fetched if and only if their chunks are intact. */
  lemma {:induction false} FetchedMatches(c: Codec, b: Buffer, h: Handle, s: Store, items: seq<KeyItem>,
                                          vs: seq<Valued>)
    requires Lawful(c) && Terminated(c) && C.Finished(c, b, h.table, s.offsets, s.chunks, s.blocks) && |items| == |vs|
    requires forall i :: 0 <= i < |items| ==>
      && items[i].originalKey == vs[i].originalKey && items[i].size == |vs[i].data|
      && C.Placed(items[i].address, vs[i].data) in s.blocks
    ensures FetchedAll(c, b, s.offsets, items) == if Intact(c, s.chunks, items) then Some(vs) else None
    decreases |items|
  {
    hide C.Fetched, Lawful, Terminated, C.Finished, C.HomeAt;
    if items != [] {
      var n := |items| - 1;
      FetchedMatches(c, b, h, s, items[..n], vs[..n]);
      var p := C.Placed(items[n].address, vs[n].data);
      var i :| 0 <= i < |s.blocks| && s.blocks[i] == p;
      C.FinishedBlock(c, b, h.table, s.offsets, s.chunks, s.blocks, i);
      assert vs == vs[..n] + [vs[n]];
    }
  }

  /** From a finalised file to values, for every outcome: the database does not open when the index root is too large;
      the lookup is an error when another node on the way is; nothing is found when nothing was added under the key or
      its folded key is a separator of the index; it is an error when a chunk of one of the values compresses to 4 GiB
      or more; and otherwise what was added under the key comes back in order and byte for byte. */
  method OpenAndLookup(codec: Codec, file: File, lower: byte -> byte, handle: Handle, key: CString,
                       ghost store: Store, ghost adds: seq<Added>, ghost added: seq<Buffer>)
    returns (status: Status, values: seq<Valued>)
    requires Lawful(codec) && Terminated(codec) && Lowering(lower) && Stocked(codec, file.bytes, handle, store)
    requires Gathers(lower, store.es, adds) && Matched(adds, added, store.blocks)
    modifies file`pos
    ensures Outcome(codec, lower, store, adds, added, key, status, values)
  {
    hide Held, Lawful, Terminated, C.Finished, Seps, FetchedAll, C.ChunkAt, Gathers, Matched, MaxElements, Intact;
    hide Legible, WayLegible;
    FinishedReadable(codec, file.bytes, handle, store);
    values := [];
    var db;
    status, db := OpenDb(file, codec, lower, handle.entryCount, handle.root, handle.firstLeaf,
                         store.tree, store.es, MaxElements(|store.es|));
    if db == null {
      return;
    }
    var reader := new C.ChunkReader(codec, file);
    var ok := reader.ReadTable(handle.table);
    assert reader.offsets == store.offsets;
    status, values := ValueLookup(db, reader, key);
    EntryValues(codec, file.bytes, lower, handle, store, adds, added, key);
  }

  /** The result of looking up a key in a finalised file. */
  ghost predicate Outcome(c: Codec, lower: byte -> byte, s: Store, adds: seq<Added>, added: seq<Buffer>, key: CString,
                          status: Status, values: seq<Valued>)
    requires |adds| == |added|
  {
    var k := Fold(lower, key);
    var vs := ValuesFor(lower, adds, added, k);
    if !Legible(c, s.tree) then status == ErrIo
    else if !WayLegible(c, s.tree, k) then status == ErrFormat
    else if vs == [] || k in Seps(s.tree) then status == UdxNotFound
    else if !Intact(c, s.chunks, ItemsFor(lower, adds, k)) then status == ErrFormat
    else status == UdxOk && values == vs
  }

  /** The outcome in plain words: the values handed out are those of the additions whose keys have the same length as
      the looked-up key and agree with it when lowered, in the order of the additions; and when nothing is found there
      is no such addition, or the lowered key is a separator. */
  lemma OutcomeMeans(c: Codec, lower: byte -> byte, s: Store, adds: seq<Added>, added: seq<Buffer>, key: CString,
                     status: Status, values: seq<Valued>)
    returns (picked: seq<nat>)
    requires |adds| == |added| && Outcome(c, lower, s, adds, added, key, status, values)
    ensures forall i :: 0 <= i < |picked| ==> picked[i] < |adds|
    ensures forall i, j :: 0 <= i < j < |picked| ==> picked[i] < picked[j]
    ensures forall j: nat :: j < |adds| ==>
      (j in picked <==>
         |adds[j].key| == |key| && forall x :: 0 <= x < |key| ==> lower(adds[j].key[x]) == lower(key[x]))
    ensures status == UdxOk ==>
      && |values| == |picked| > 0
      && forall i :: 0 <= i < |picked| ==> values[i] == Valued(adds[picked[i]].key, added[picked[i]])
    ensures status == UdxNotFound ==>
      || picked == []
      || exists k :: k in Seps(s.tree) && |k| == |key| && forall x :: 0 <= x < |k| ==> k[x] == lower(key[x])
    ensures picked == [] ==> status != UdxOk
  {
    hide Seps, ValuesFor, Legible, WayLegible, Intact, ItemsFor, Fold;
    var k := Fold(lower, key);
    FoldIs(lower, key, k);
    picked := ValuesPicked(lower, adds, added, k);
  }

  lemma FinishedReadable(c: Codec, b: Buffer, h: Handle, s: Store)
    requires Stocked(c, b, h, s)
    ensures h.table + 8 + 8 * |s.offsets| <= |b| < OFFSET_LIMIT && D64(b[h.table..h.table + 8]) == |s.offsets|
    ensures forall i :: 0 <= i < |s.offsets| ==> D64(b[h.table + 8 + 8 * i..h.table + 8 + 8 * i + 8]) == s.offsets[i]
  {
    hide C.OnFile, C.Accounts, D64, C.HasTable;
    C.FinishedTable(c, b, h.table, s.offsets, s.chunks, s.blocks);
  }

  /** The entry of a key holds the items whose values were added under it. */
  lemma EntryValues(c: Codec, b: Buffer, lower: byte -> byte, h: Handle, s: Store, adds: seq<Added>, added: seq<Buffer>,
                    key: CString)
    requires Lawful(c) && Terminated(c) && Stocked(c, b, h, s) && Lowering(lower)
    requires Gathers(lower, s.es, adds) && Matched(adds, added, s.blocks)
    ensures var k := Fold(lower, key);
      var vs, items := ValuesFor(lower, adds, added, k), ItemsFor(lower, adds, k);
      && (Has(s.es, k) <==> vs != [])
      && (Has(s.es, k) ==>
            && items != [] && s.es[Rank(s.es, k)].items == items
            && FetchedAll(c, b, s.offsets, items) == if Intact(c, s.chunks, items) then Some(vs) else None)
  {
    hide Held, Lawful, Terminated, C.Finished, FetchedAll, Rank, Sorted, ValuesFor, ItemsFor, Intact;
    var k := Fold(lower, key);
    FoldStable(lower, key);
    ItemsMatch(lower, adds, added, s.blocks, k);
    if Has(s.es, k) {
      FetchedMatches(c, b, h, s, s.es[Rank(s.es, k)].items, ValuesFor(lower, adds, added, k));
    }
  }

  // ---------------------------------------------------------------- a whole dictionary

  function Datas(input: seq<Valued>): (r: seq<Buffer>)
    ensures |r| == |input| && forall i :: 0 <= i < |r| ==> r[i] == input[i].data
  {
    seq(|input|, i requires 0 <= i < |input| => input[i].data)
  }

  /** Addition a is that of input i, at the address where packing puts its value. */
  ghost predicate AddedAt(c: Codec, start: C.Packing, input: seq<Valued>, a: Added, i: nat)
    requires i < |input|
  {
    var w := C.PackedAll(c, start, Datas(input)[..i + 1]);
    && w.Some? && |input[i].data| <= |w.value.buffer|
    && a == Added(input[i].originalKey, a.address, |input[i].data|)
    && a.address == C.LastAddress(w.value, |input[i].data|)
  }

  /** The additions that the input makes. */
  ghost predicate AddedAs(c: Codec, start: C.Packing, input: seq<Valued>, adds: seq<Added>) {
    |adds| == |input| && forall i :: 0 <= i < |input| ==> AddedAt(c, start, input, adds[i], i)
  }

  /** Adding a whole input to a fresh builder: this succeeds if and only if every value can be packed and there are
      fewer than 2^32 of them. */
  method AddAll(builder: Builder, input: seq<Valued>) returns (status: BuildStatus)
    requires builder.Valid() && builder.keys.adds == [] && forall i :: 0 <= i < |input| ==> |input[i].data| < U32_LIMIT
    modifies builder, builder.keys, builder.keys.tree, builder.keys.tree.heap`s, builder.keys.tree.heap.s.g.Keys
    modifies builder.chunks, builder.file
    ensures builder.Valid() && builder.keys.tree.OnlyFresh()
    ensures status == BuildOk <==>
      C.PackedAll(builder.codec, old(builder.chunks.Now()), Datas(input)).Some? && |input| < U32_LIMIT
    ensures status == BuildOk ==>
      && C.PackedAll(builder.codec, old(builder.chunks.Now()), Datas(input)) == Some(builder.chunks.Now())
      && builder.values == Datas(input) && AddedAs(builder.codec, old(builder.chunks.Now()), input, builder.keys.adds)
  {
    hide Builder.Valid, C.Packed, C.LastAddress;
    ghost var c, start, datas := builder.codec, builder.chunks.Now(), Datas(input);
    BuilderCounts(builder);
    assert datas[..0] == [];
    var i := 0;
    while i < |input|
      invariant 0 <= i <= |input| && i < U32_LIMIT && builder.Valid() && builder.keys.tree.OnlyFresh()
      invariant C.PackedAll(c, start, datas[..i]) == Some(builder.chunks.Now())
      invariant builder.values == datas[..i] && AddedAs(c, start, input[..i], builder.keys.adds)
    {
      ghost var adds := builder.keys.adds;
      assert datas[..i + 1][..i] == datas[..i];
      status := builder.AddEntry(input[i].originalKey, input[i].data);
      if status != BuildOk {
        if C.PackedAll(c, start, datas[..i + 1]).None? { C.PackedPrefix(c, start, datas, i + 1); }
        return;
      }
      AddedMore(c, start, input, adds, builder.keys.adds, i);
      BuilderCounts(builder);
      i := i + 1;
    }
    assert datas[..i] == datas && input[..i] == input;
    status := BuildOk;
  }

  lemma BuilderCounts(builder: Builder)
    requires builder.Valid()
    ensures |builder.keys.adds| == |builder.values| < U32_LIMIT
  {
  }

  lemma AddedMore(c: Codec, start: C.Packing, input: seq<Valued>, adds: seq<Added>, more: seq<Added>, i: nat)
    requires i < |input| && AddedAs(c, start, input[..i], adds) && |more| == i + 1 && more[..i] == adds
    requires AddedAt(c, start, input, more[i], i)
    ensures AddedAs(c, start, input[..i + 1], more)
  {
    hide C.PackedAll, C.LastAddress;
    forall j | 0 <= j <= i ensures AddedAt(c, start, input[..i + 1], more[j], j) {
      assert Datas(input[..i + 1])[..j + 1] == Datas(input)[..j + 1];
      if j < i {
        assert Datas(input[..i])[..j + 1] == Datas(input)[..j + 1];
        assert AddedAt(c, start, input[..i], adds[j], j);
      }
    }
  }

  /** The whole way: a dictionary of any input is written, and a key is looked up in it. Writing succeeds if and only if
      every value can be packed, the store can be closed and the index fits; the outcome of the lookup is then exact. */
  method StoreAndLookup(codec: Codec, file: File,
                        lower: byte -> byte, ghost heap: Heap, input: seq<Valued>, key: CString)
    returns (built: BuildStatus, status: Status, values: seq<Valued>, ghost store: Store, ghost adds: seq<Added>,
             ghost picked: seq<nat>)
    requires Lawful(codec) && Terminated(codec) && Lowering(lower) && heap.Ok() && Alone(heap.s)
    requires file.pos == |file.bytes| && file.bytes != []
    requires forall i :: 0 <= i < |input| ==> |input[i].data| < U32_LIMIT
    modifies heap, heap.s.g.Keys, file
    ensures var start := C.Packing([], [], |old(file.bytes)|);
      var w := C.PackedAll(codec, start, Datas(input));
      && (w.Some? && |input| < U32_LIMIT ==> AddedAs(codec, start, input, adds))
      && (built == BuildOk <==>
            && input != [] && |input| < U32_LIMIT && w.Some? && C.Closes(codec, w.value)
            && var lo := C.ClosedSize(codec, w.value);
               var t := IndexOf(codec, Gathered(lower, adds), lo);
               Fits(codec, t) && lo + Size(codec, t) < OFFSET_LIMIT)
      && (built == BuildOk ==>
            && store.chunks == C.ClosedChunks(w.value)
            && store.tree == IndexOf(codec, Gathered(lower, adds), C.ClosedSize(codec, w.value)))
    ensures built == BuildOk ==>
      |adds| == |input| && Outcome(codec, lower, store, adds, Datas(input), key, status, values)
    ensures forall i :: 0 <= i < |picked| ==> picked[i] < |input|
    ensures forall i, j :: 0 <= i < j < |picked| ==> picked[i] < picked[j]
    ensures built == BuildOk ==> forall j: nat :: j < |input| ==>
      (j in picked <==>
         && |input[j].originalKey| == |key|
         && forall x :: 0 <= x < |key| ==> lower(input[j].originalKey[x]) == lower(key[x]))
    ensures built == BuildOk && status == UdxOk ==>
      |values| == |picked| > 0 && forall i :: 0 <= i < |picked| ==> values[i] == input[picked[i]]
    ensures built == BuildOk && status == UdxNotFound ==>
      || picked == []
      || exists k :: k in Seps(store.tree) && |k| == |key| && forall x :: 0 <= x < |k| ==> k[x] == lower(key[x])
    ensures picked == [] ==> status != UdxOk
  {
    hide Builder.Valid, C.PackedAll, C.Closes, C.ClosedSize, C.ClosedChunks, Fits;
    hide Size, IndexOf, Gathered, Stocked, Outcome, Lawful;
    hide Terminated, BTree.Items, AddedAs, Heap.Ok;
    status, values, adds, store, picked := UdxNotFound, [], [], Store(0, ILeaf(0, []), [], [], [], []), [];
    var builder := new Builder(codec, file, lower, heap);
    built := AddAll(builder, input);
    if built != BuildOk {
      return;
    }
    adds := builder.keys.adds;
    BuilderItems(builder);
    AddedKeys(codec, C.Packing([], [], |old(file.bytes)|), input, adds);
    var handle;
    built, handle, store := builder.Finalize();
    if built != BuildOk {
      return;
    }
    GatheredGathers(lower, adds);
    status, values := OpenAndLookup(codec, file, lower, handle, key, store, adds, Datas(input));
    picked := OutcomeMeans(codec, lower, store, adds, Datas(input), key, status, values);
  }

  /** The whole way for an ordinary dictionary: up to 16 TiB of values of less than 2 GiB, and entries of at most 120
      bytes. It is always written, and every lookup says what was added under the key, except that the keys which are
      separators of the index are not found. */
  method StoreOrdinary(codec: Codec, file: File,
                       lower: byte -> byte, ghost heap: Heap, input: seq<Valued>, key: CString)
    returns (status: Status, values: seq<Valued>, ghost store: Store, ghost picked: seq<nat>)
    requires Lawful(codec) && Terminated(codec) && Lowering(lower) && heap.Ok() && Alone(heap.s)
    requires file.pos == |file.bytes| && 0 < |file.bytes| < 0x4000_0000_0000_0000
    requires forall x: Buffer :: |codec.compress(x)| <= |x| + |x| / 1000 + 64
    requires 0 < |input| < 0x1_0000_0000 && |C.Joined(Datas(input))| <= 0x1000_0000_0000
    requires forall i :: 0 <= i < |input| ==> 0 < |input[i].data| <= 0x7FF0_0000
    requires forall adds, e ::
      AddedAs(codec, C.Packing([], [], |file.bytes|), input, adds) && e in Gathered(lower, adds)
      ==> |EntryBytes(e)| <= 120
    modifies heap, heap.s.g.Keys, file
    ensures forall i :: 0 <= i < |picked| ==> picked[i] < |input|
    ensures forall i, j :: 0 <= i < j < |picked| ==> picked[i] < picked[j]
    ensures forall j: nat :: j < |input| ==>
      (j in picked <==>
         && |input[j].originalKey| == |key|
         && forall x :: 0 <= x < |key| ==> lower(input[j].originalKey[x]) == lower(key[x]))
    ensures status == if picked == [] || Fold(lower, key) in Seps(store.tree) then UdxNotFound else UdxOk
    ensures status == UdxOk ==> |values| == |picked| && forall i :: 0 <= i < |picked| ==> values[i] == input[picked[i]]
  {
    hide Lawful, Terminated, Outcome, C.PackedAll, C.Closes, C.ClosedSize, C.ClosedChunks, Fits, Size, IndexOf;
    hide Gathered, AddedAs, EntryBytes, C.Joined, Seps, Heap.Ok;
    ghost var size := |file.bytes|;
    C.OrdinaryCloses(codec, size, Datas(input));
    var built;
    ghost var adds;
    built, status, values, store, adds, picked := StoreAndLookup(codec, file, lower, heap, input, key);
    OrdinaryBuilds(codec, size, lower, input, adds);
    OrdinaryOutcome(codec, lower, input, adds, store, key, status, values);
    if status == UdxNotFound && picked != [] {
      ghost var k :| k in Seps(store.tree) && |k| == |key| && forall x :: 0 <= x < |k| ==> k[x] == lower(key[x]);
      FoldIs(lower, key, k);
    }
  }

  /** The index over the entries of an ordinary input fits and can be read. */
  lemma OrdinaryBuilds(c: Codec, size: nat, lower: byte -> byte, input: seq<Valued>, adds: seq<Added>)
    requires Lowering(lower) && AddedAs(c, C.Packing([], [], size), input, adds)
    requires forall x: Buffer :: |c.compress(x)| <= |x| + |x| / 1000 + 64
    requires 0 < |input| < 0x1_0000_0000 && forall e :: e in Gathered(lower, adds) ==> |EntryBytes(e)| <= 120
    ensures forall lo: nat :: lo < 0x7000_0000_0000_0000 ==>
      var t := IndexOf(c, Gathered(lower, adds), lo);
      && Fits(c, t) && lo + Size(c, t) < OFFSET_LIMIT && Legible(c, t)
      && forall k :: WayLegible(c, t, k)
  {
    hide C.PackedAll, Plan, Fits, Size, Gathered, EntryBytes, Legible, WayLegible, MaxElements, FirstDark;
    var es := Gathered(lower, adds);
    GatheredGathers(lower, adds);
    EntriesAtMost(es);
    FoldStable(lower, adds[0].key);
    GatheredAlike(lower, es, adds);
    assert adds[0] in adds;
    forall lo: nat | lo < 0x7000_0000_0000_0000
      ensures var t := IndexOf(c, es, lo);
        && Fits(c, t) && lo + Size(c, t) < OFFSET_LIMIT && Legible(c, t)
        && forall k :: WayLegible(c, t, k)
    {
      OrdinaryIndex(c, es, lo);
    }
  }

  lemma OrdinaryOutcome(c: Codec, lower: byte -> byte, input: seq<Valued>, adds: seq<Added>, s: Store, key: CString,
                        status: Status, values: seq<Valued>)
    requires |adds| == |input| && Outcome(c, lower, s, adds, Datas(input), key, status, values)
    requires Legible(c, s.tree) && (forall k :: WayLegible(c, s.tree, k))
    requires |c.compress([])| < U32_LIMIT && forall i :: 0 <= i < |s.chunks| ==> |c.compress(s.chunks[i])| < U32_LIMIT
    ensures status == UdxOk || status == UdxNotFound
    ensures Fold(lower, key) in Seps(s.tree) ==> status == UdxNotFound
  {
    hide Seps, Legible, WayLegible, Fold;
  }

  lemma AddedKeys(c: Codec, start: C.Packing, input: seq<Valued>, adds: seq<Added>)
    requires AddedAs(c, start, input, adds)
    ensures |adds| == |input| && forall i :: 0 <= i < |input| ==> adds[i].key == input[i].originalKey
  {
  }

  lemma BuilderItems(builder: Builder)
    requires builder.Valid()
    ensures Lowering(builder.keys.lower) && builder.keys.tree.Items() == Gathered(builder.keys.lower, builder.keys.adds)
  {
  }
}
