// What goes wrong at the limits: a codec, a key and a block for which the written file cannot be read back.

module Limits {
  import opened Bytes
  import opened Entries
  import opened Files
  import opened EntryFormat
  import opened IndexTrees
  import opened IndexImages
  import opened IndexStores
  import opened IndexLookups
  import opened NodeSearches
  import opened Readers
  import opened Writers
  import C = Chunks

  // ---------------------------------------------------------------- a codec

  /** Every byte behind a 1, and a 0 at the end. */
  function Doubling(x: Buffer): (y: Buffer)
    ensures |y| == 2 * |x| + 1
  {
    if x == [] then [0] else [1, x[0]] + Doubling(x[1..])
  }

  function Halving(y: Buffer): Option<Buffer> {
    if y == [] then None
    else if y[0] == 0 then Some([])
    else if y[0] != 1 || |y| < 2 then None
    else
      match Halving(y[2..])
      case None => None
      case Some(x) => Some([y[1]] + x)
  }

  function DoublingCodec(): Codec {
    Codec(Doubling, Halving)
  }

  lemma {:induction false} HalvingBack(x: Buffer)
    ensures Halving(Doubling(x)) == Some(x)
  {
    if x != [] {
      HalvingBack(x[1..]);
      assert Doubling(x)[2..] == Doubling(x[1..]);
      assert [x[0]] + x[1..] == x;
    }
  }

  lemma {:induction false} HalvingCut(x: Buffer, n: nat)
    requires n < |Doubling(x)|
    ensures Halving(Doubling(x)[..n]) == None
  {
    if x != [] && n >= 2 {
      HalvingCut(x[1..], n - 2);
      assert Doubling(x)[..n][2..] == Doubling(x[1..])[..n - 2];
    }
  }

  /** All that is taken for granted of a codec can be had at once. */
  lemma DoublingMeets()
    ensures Lawful(DoublingCodec()) && Terminated(DoublingCodec())
  {
    forall x: Buffer
      ensures DoublingCodec().compress(x) != []
      ensures DoublingCodec().decompress(DoublingCodec().compress(x)) == Some(x)
    {
      HalvingBack(x);
    }
    forall x: Buffer, n: nat | n < |DoublingCodec().compress(x)|
      ensures DoublingCodec().decompress(DoublingCodec().compress(x)[..n]) == None
    {
      HalvingCut(x, n);
    }
  }

  // ---------------------------------------------------------------- a key whose node is too large

  /** One spelling of four characters, added 65535 times. */
  function ManyItems(): (items: seq<KeyItem>)
    ensures |items| == 65535 && forall i :: 0 <= i < |items| ==> |items[i].originalKey| == 4
  {
    seq(65535, i requires 0 <= i < 65535 => KeyItem([97, 97, 97, 97], 0, 1))
  }

  function ManyEntry(): Entry {
    Entry([97, 97, 97, 97], ManyItems())
  }

  lemma {:induction false} ItemsLength(items: seq<KeyItem>, k: nat)
    requires forall i :: 0 <= i < |items| ==> |items[i].originalKey| == k
    ensures |ItemsBytes(items)| == |items| * (k + 13)
  {
    if items != [] {
      ItemsLength(items[1..], k);
      assert |items| * (k + 13) == |items[1..]| * (k + 13) + (k + 13);
    }
  }

  lemma ManyLength(key: CString)
    ensures |LeafData([Entry(key, ManyItems())])| == 1114101 + |key|
  {
    hide ItemsBytes, ManyItems;
    ItemsLength(ManyItems(), 4);
    var e := Entry(key, ManyItems());
    assert |EntryBytes(e)| == |key| + 1 + (2 + |ItemsBytes(e.items)|);
    assert EntriesBytes([e]) == EntriesBytes([e][..0]) + EntryBytes(e);
    assert [e][..0] == [];
  }

  /** The writer accepts a single key with 65535 items of four characters, whatever the codec makes of its node in 32
      bits, and the reader does not accept that node: the database does not open. */
  lemma TooLargeToOpen(c: Codec, b: Buffer, m: nat, lo: nat)
    requires Lawful(c) && |c.compress(LeafData([ManyEntry()]))| < U32_LIMIT && 1 <= m && 0 < lo < OFFSET_LIMIT
    requires At(b, lo, Image(c, Plan(c, [ManyEntry()], m, lo), 0))
    ensures var t := Plan(c, [ManyEntry()], m, lo);
      t.off == lo && Fits(c, t) && !Legible(c, t) && NodeAt(c, b, t.off) == None
  {
    hide LeafData, Block, ManyItems, Le64, NodeAt;
    ManyLength(ManyEntry().key);
    var t := Plan(c, [ManyEntry()], m, lo);
    AtParts(b, lo, Block(c, DataOf(t)), Le64(0));
    BlockRead(c, b, t);
  }

  /** With the doubling codec nothing is left to assume. */
  lemma DoublingTooLarge(b: Buffer, m: nat, lo: nat)
    requires 1 <= m && 0 < lo < OFFSET_LIMIT
    requires At(b, lo, Image(DoublingCodec(), Plan(DoublingCodec(), [ManyEntry()], m, lo), 0))
    ensures Fits(DoublingCodec(), Plan(DoublingCodec(), [ManyEntry()], m, lo)) && NodeAt(DoublingCodec(), b, lo) == None
  {
    hide Plan, Image, At, Fits, NodeAt, LeafData, Lawful, Terminated, Doubling;
    ManyLength(ManyEntry().key);
    DoublingMeets();
    TooLargeToOpen(DoublingCodec(), b, m, lo);
  }

  /** One such key among 65, here the last, is in a leaf of its own: the database opens, but the way to the key does not
      lead through, although this is the one key that is not a separator. */
  lemma TooLargeToReach(c: Codec, es: seq<Entry>, lo: nat)
    requires |es| == 65 && Sorted(es) && es[64].items == ManyItems()
    ensures !WayLegible(c, Plan(c, es, 64, lo), es[64].key)
  {
    hide Less, Part, Plan, LeafData, ManyItems, Passed;
    var t, k := Plan(c, es, 64, lo), es[64].key;
    PlanChild(c, es, 64, lo, 64);
    forall i | 0 <= i < 64 ensures !Less(k, t.keys[i]) {
      PlanChild(c, es, 64, lo, i);
      OneOfSixtyFive(es, i);
      LessAsymmetric(es[i].key, k);
    }
    PassedIs(t.keys, k, false, 64);
    OneOfSixtyFive(es, 64);
    LeafPlan(c, [es[64]], 64, lo + SizeTo(c, t.children, 64));
    ManyLength(k);
  }

  lemma OneOfSixtyFive(es: seq<Entry>, i: nat)
    requires |es| == 65 && i <= 64
    ensures Part(es, 64, i) == [es[i]]
  {
    CutIsDivision(65, 64, i);
    CutIsDivision(65, 64, i + 1);
    PartAt(es, 64, i);
  }

  // ---------------------------------------------------------------- a block whose chunk is too large

  /** A chunk of 2^31 bytes, doubled, is more than its size field can say: it does not come back. */
  lemma LostChunk(b: Buffer, off: nat, chunk: Buffer)
    requires 0x8000_0000 <= |chunk| < U32_LIMIT && |b| < OFFSET_LIMIT && At(b, off, Block(DoublingCodec(), chunk))
    ensures C.ChunkAt(DoublingCodec(), b, off) == None
  {
    hide Lawful, Terminated, Block, C.ChunkAt, At, Doubling;
    DoublingMeets();
    C.ChunkBack(DoublingCodec(), b, off, chunk);
  }

  /** A block of 2^31 bytes is accepted, the store is finished, and the block cannot be fetched. */
  method LoseBlock(file: File, data: Buffer) returns (table: nat, address: nat, ghost offsets: seq<nat>)
    requires |data| == 0x8000_0000 && file.pos == |file.bytes| && 0 < |file.bytes| < 0x1_0000_0000_0000
    modifies file
    ensures table != 0 && address < U64_LIMIT && C.HasTable(file.bytes, table, offsets)
    ensures C.Fetched(DoublingCodec(), file.bytes, offsets, address, |data|) == None
  {
    hide Lawful, Terminated, C.Fetched, C.HasTable, C.OnFile, C.Joined, C.DataOf, Doubling;
    DoublingMeets();
    var c := DoublingCodec();
    OneBlockCloses(c, |file.bytes|, data);
    var addresses;
    ghost var chunks, blocks;
    table, addresses, offsets, chunks, blocks := C.StoreAll(c, file, [data]);
    address := addresses[0];
    C.FinishedBlock(c, file.bytes, table, offsets, chunks, blocks, 0);
    assert C.Located(chunks, [], blocks[0]);
  }

  lemma OneBlockCloses(c: Codec, size: nat, data: Buffer)
    requires 0 < |data| < U32_LIMIT && size < 0x1_0000_0000_0000 && |c.compress(data)| < 0x1_0000_0000_0000
    ensures var w := C.PackedAll(c, C.Packing([], [], size), [data]);
      w == Some(C.Packing([], data, size)) && C.Closes(c, w.value)
  {
    assert [data][..0] == [];
    assert [] + data == data;
    assert C.PackedAll(c, C.Packing([], [], size), []) == Some(C.Packing([], [], size));
  }
}
