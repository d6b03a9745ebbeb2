// The chunk store: blocks packed into compressed chunks, found again by address.

module Chunks {
  import opened Bytes
  import opened Files

  /** UDX_CHUNK_MAX_SIZE */
  const CHUNK_SIZE: int := 65536

  const INVALID_ADDRESS: int := U64_LIMIT - 1

  // ---------------------------------------------------------------- addresses

  function AddrMake(chunk: nat, offset: nat): nat {
    chunk * 65536 + offset
  }

  function AddrChunk(address: nat): nat {
    (address / 65536) % U32_LIMIT
  }

  function AddrOffset(address: nat): nat {
    address % 65536
  }

  lemma AddrParts(chunk: nat, offset: nat)
    requires chunk < U32_LIMIT && offset < 65536
    ensures AddrMake(chunk, offset) < 0x1_0000_0000_0000 < INVALID_ADDRESS == 0xFFFF_FFFF_FFFF_FFFF
    ensures AddrChunk(AddrMake(chunk, offset)) == chunk && AddrOffset(AddrMake(chunk, offset)) == offset
  {
  }

  // ---------------------------------------------------------------- what the writer has accepted

  datatype Placed = Placed(address: nat, data: Buffer)

  function Joined(chunks: seq<Buffer>): Buffer {
    if chunks == [] then [] else Joined(chunks[..|chunks| - 1]) + chunks[|chunks| - 1]
  }

  function DataOf(blocks: seq<Placed>): Buffer {
    if blocks == [] then [] else DataOf(blocks[..|blocks| - 1]) + blocks[|blocks| - 1].data
  }

  /** The block lies whole inside one chunk, or inside the live buffer, where its address says. */
  ghost predicate Located(chunks: seq<Buffer>, buffer: Buffer, p: Placed) {
    var i, off := AddrChunk(p.address), AddrOffset(p.address);
    && p.data != [] && p.address == AddrMake(i, off) && i <= |chunks|
    && At(if i < |chunks| then chunks[i] else buffer, off, p.data)
  }

  /** The saved chunks and the live buffer hold exactly the accepted blocks, at strictly increasing addresses. */
  ghost predicate Accounts(chunks: seq<Buffer>, buffer: Buffer, blocks: seq<Placed>) {
    && Joined(chunks) + buffer == DataOf(blocks)
    && (forall i :: 0 <= i < |blocks| ==> Located(chunks, buffer, blocks[i]))
    && (forall i, j :: 0 <= i < j < |blocks| ==> blocks[i].address < blocks[j].address)
  }

  lemma AccountsSaved(chunks: seq<Buffer>, buffer: Buffer, blocks: seq<Placed>)
    requires Accounts(chunks, buffer, blocks)
    ensures Accounts(chunks + [buffer], [], blocks)
  {
    var more := chunks + [buffer];
    assert more[..|more| - 1] == chunks;
    assert Joined(more) + [] == Joined(chunks) + buffer;
    forall i | 0 <= i < |blocks| ensures Located(more, [], blocks[i]) {
      assert Located(chunks, buffer, blocks[i]);
    }
  }

  lemma AccountsAdded(chunks: seq<Buffer>, buffer: Buffer, blocks: seq<Placed>, data: Buffer)
    requires Accounts(chunks, buffer, blocks) && |chunks| < U32_LIMIT && |buffer| < CHUNK_SIZE && data != []
    ensures var p := Placed(AddrMake(|chunks|, |buffer|), data);
      Accounts(chunks, buffer + data, blocks + [p]) && p.address < 0x1_0000_0000_0000
  {
    var p := Placed(AddrMake(|chunks|, |buffer|), data);
    var more := blocks + [p];
    AddrParts(|chunks|, |buffer|);
    assert more[..|more| - 1] == blocks;
    assert Joined(chunks) + (buffer + data) == Joined(chunks) + buffer + data;
    forall i | 0 <= i < |more| ensures Located(chunks, buffer + data, more[i]) {
      if i < |blocks| {
        assert Located(chunks, buffer, blocks[i]);
        if AddrChunk(blocks[i].address) == |chunks| {
          AtGrown(buffer, data, AddrOffset(blocks[i].address), blocks[i].data);
        }
      } else {
        assert (buffer + data)[|buffer|..|buffer| + |data|] == data;
      }
    }
    forall i | 0 <= i < |blocks| ensures blocks[i].address < p.address {
      assert Located(chunks, buffer, blocks[i]);
    }
  }

  // ---------------------------------------------------------------- packing

  /** A store being written: saved chunks, live buffer and size of the file. */
  datatype Packing = Packing(chunks: seq<Buffer>, buffer: Buffer, size: nat)

  /** The live buffer can be saved: there is room in the offset table and in the file. */
  predicate Saves(c: Codec, w: Packing) {
    w.buffer == [] || (|w.chunks| < 0x8000_0000 && w.size + |Block(c, w.buffer)| < OFFSET_LIMIT)
  }

  /** One more block: refused when it is empty, when the buffer size would overflow 32 bits, or when a buffer of at
      least 64 KiB that has to be saved first cannot be. */
  function Packed(c: Codec, w: Packing, data: Buffer): Option<Packing> {
    if data == [] || |w.buffer| + |data| >= U32_LIMIT then None
    else if |w.buffer| < CHUNK_SIZE then Some(w.(buffer := w.buffer + data))
    else if Saves(c, w) then Some(Packing(w.chunks + [w.buffer], data, w.size + |Block(c, w.buffer)|))
    else None
  }

  /** Packing in plain words: when a block is accepted, what becomes of the store, and which address the block gets. */
  lemma PackedMeans(c: Codec, w: Packing, data: Buffer)
    ensures Packed(c, w, data).Some? <==>
      && data != [] && |w.buffer| + |data| < 0x1_0000_0000
      && (|w.buffer| < 65536
          || (|w.chunks| < 0x8000_0000 && w.size + 8 + |c.compress(w.buffer)| < 0x8000_0000_0000_0000))
    ensures Packed(c, w, data).Some? ==>
      var v := Packed(c, w, data).value;
      && |data| <= |v.buffer|
      && (if |w.buffer| < 65536
          then v == Packing(w.chunks, w.buffer + data, w.size)
               && LastAddress(v, |data|) == |w.chunks| * 65536 + |w.buffer|
          else v == Packing(w.chunks + [w.buffer], data, w.size + 8 + |c.compress(w.buffer)|)
               && LastAddress(v, |data|) == (|w.chunks| + 1) * 65536)
  {
  }

  function PackedAll(c: Codec, w: Packing, datas: seq<Buffer>): Option<Packing> {
    if datas == [] then Some(w)
    else
      match PackedAll(c, w, datas[..|datas| - 1])
      case None => None
      case Some(v) => Packed(c, v, datas[|datas| - 1])
  }

  lemma {:induction false} PackedPrefix(c: Codec, w: Packing, datas: seq<Buffer>, n: nat)
    requires n <= |datas| && PackedAll(c, w, datas[..n]).None?
    ensures PackedAll(c, w, datas).None?
    decreases |datas|
  {
    if n < |datas| {
      assert datas[..|datas| - 1][..n] == datas[..n];
      PackedPrefix(c, w, datas[..|datas| - 1], n);
    } else {
      assert datas[..n] == datas;
    }
  }

  /** The address of the block that was packed last. */
  function LastAddress(w: Packing, size: nat): nat
    requires size <= |w.buffer|
  {
    AddrMake(|w.chunks|, |w.buffer| - size)
  }

  /** The size of the file once the buffer has been saved and the chunk table written. */
  function ClosedSize(c: Codec, w: Packing): nat {
    w.size + (if w.buffer == [] then 0 else |Block(c, w.buffer)| + 8) + 8 + 8 * |w.chunks|
  }

  function ClosedChunks(w: Packing): seq<Buffer> {
    w.chunks + if w.buffer == [] then [] else [w.buffer]
  }

  predicate Closes(c: Codec, w: Packing) {
    Saves(c, w) && ClosedSize(c, w) < OFFSET_LIMIT
  }

  /** Saving and closing in plain words: the rest of the buffer takes a chunk of its own, and then follow the number of
      chunks and one offset for each. */
  lemma ClosesMeans(c: Codec, w: Packing)
    ensures Saves(c, w) <==>
      w.buffer == [] || (|w.chunks| < 0x8000_0000 && w.size + 8 + |c.compress(w.buffer)| < 0x8000_0000_0000_0000)
    ensures w.buffer == [] ==> ClosedChunks(w) == w.chunks && ClosedSize(c, w) == w.size + 8 + 8 * |w.chunks|
    ensures w.buffer != [] ==>
      && ClosedChunks(w) == w.chunks + [w.buffer]
      && ClosedSize(c, w) == w.size + 8 + |c.compress(w.buffer)| + 8 + 8 * (|w.chunks| + 1)
    ensures Closes(c, w) <==>
      && (w.buffer == [] || |w.chunks| < 0x8000_0000)
      && w.size + (if w.buffer == [] then 0 else 8 + |c.compress(w.buffer)|)
         + 8 + 8 * (|w.chunks| + if w.buffer == [] then 0 else 1) < 0x8000_0000_0000_0000
  {
  }

  // ---------------------------------------------------------------- ordinary stores

  lemma {:induction false} JoinedAppend(a: seq<Buffer>, b: seq<Buffer>)
    ensures Joined(a + b) == Joined(a) + Joined(b)
    ensures forall x: Buffer :: Joined([x]) == x
  {
    forall x: Buffer ensures Joined([x]) == x { assert [x][..0] == []; }
    if b == [] {
      assert a + b == a;
    } else {
      JoinedAppend(a, b[..|b| - 1]);
      assert (a + b)[..|a + b| - 1] == a + b[..|b| - 1];
    }
  }

  /** Blocks of less than 2 GiB, up to 16 TiB of them, are all accepted with a codec that at most doubles its input. */
  lemma {:induction false} OrdinaryPacks(c: Codec, size: nat, datas: seq<Buffer>)
    requires forall i :: 0 <= i < |datas| ==> 0 < |datas[i]| <= 0x7FF0_0000
    requires forall x: Buffer :: |c.compress(x)| <= 2 * |x| + 64
    requires |Joined(datas)| <= 0x1000_0000_0000 && size < 0x4000_0000_0000_0000
    ensures var w := PackedAll(c, Packing([], [], size), datas);
      && w.Some? && |w.value.buffer| < 0x7FF1_0000
      && (forall i :: 0 <= i < |w.value.chunks| ==> |w.value.chunks[i]| < 0x7FF1_0000)
      && |Joined(w.value.chunks)| + |w.value.buffer| == |Joined(datas)|
      && |w.value.chunks| * 65536 <= |Joined(w.value.chunks)| && w.value.size <= size + 3 * |Joined(w.value.chunks)|
  {
    hide Packed;
    if datas != [] {
      var n := |datas| - 1;
      OrdinaryPacks(c, size, datas[..n]);
      var w := PackedAll(c, Packing([], [], size), datas[..n]).value;
      PackedMeans(c, w, datas[n]);
      assert (w.chunks + [w.buffer])[..|w.chunks|] == w.chunks;
    }
  }

  /** Then the store can also be closed. */
  lemma OrdinaryCloses(c: Codec, size: nat, datas: seq<Buffer>)
    requires forall i :: 0 <= i < |datas| ==> 0 < |datas[i]| <= 0x7FF0_0000
    requires forall x: Buffer :: |c.compress(x)| <= 2 * |x| + 64
    requires |Joined(datas)| <= 0x1000_0000_0000 && size < 0x4000_0000_0000_0000
    ensures var w := PackedAll(c, Packing([], [], size), datas);
      && w.Some? && Closes(c, w.value) && ClosedSize(c, w.value) < 0x4001_0000_0000_0000
      && forall i :: 0 <= i < |ClosedChunks(w.value)| ==> |c.compress(ClosedChunks(w.value)[i])| < 0x1_0000_0000
  {
    hide PackedAll, Packed, Saves, ClosedSize, ClosedChunks, Closes;
    OrdinaryPacks(c, size, datas);
    var w := PackedAll(c, Packing([], [], size), datas).value;
    ClosesMeans(c, w);
    forall i | 0 <= i < |ClosedChunks(w)| ensures |c.compress(ClosedChunks(w)[i])| < 0x1_0000_0000 {
      assert |ClosedChunks(w)[i]| < 0x7FF1_0000;
    }
  }

  // ---------------------------------------------------------------- the writer

  /** Every saved chunk is a block of the file at its recorded offset. */
  ghost predicate OnFile(c: Codec, b: Buffer, offsets: seq<nat>, chunks: seq<Buffer>) {
    |offsets| == |chunks| && forall i :: 0 <= i < |chunks| ==> At(b, offsets[i], Block(c, chunks[i]))
  }

  lemma OnFileGrown(c: Codec, b: Buffer, tail: Buffer, offsets: seq<nat>, chunks: seq<Buffer>)
    requires OnFile(c, b, offsets, chunks)
    ensures OnFile(c, b + tail, offsets, chunks)
  {
    forall i | 0 <= i < |chunks| ensures At(b + tail, offsets[i], Block(c, chunks[i])) {
      AtGrown(b, tail, offsets[i], Block(c, chunks[i]));
    }
  }

  lemma OnFileSaved(c: Codec, b: Buffer, offsets: seq<nat>, chunks: seq<Buffer>, chunk: Buffer)
    requires OnFile(c, b, offsets, chunks)
    ensures OnFile(c, b + Block(c, chunk), offsets + [|b|], chunks + [chunk])
  {
    hide Block;
    OnFileGrown(c, b, Block(c, chunk), offsets, chunks);
    assert At(b + Block(c, chunk), |b|, Block(c, chunk));
  }

  function Doubled(k: nat): nat {
    if k == 0 then 64 else 2 * Doubled(k - 1)
  }

  /** The offset table holds 0 or 64 * 2^k entries, at most 2^31. */
  ghost predicate Capacity(n: nat) {
    n == 0 || exists k :: 0 <= k <= 25 && n == Doubled(k)
  }

  lemma {:induction false} DoubledBound(k: nat, j: nat)
    requires k <= j
    ensures 64 <= Doubled(k) <= Doubled(j)
    ensures Doubled(25) == 0x8000_0000
    decreases j
  {
    if k < j { DoubledBound(k, j - 1); } else if k > 0 { DoubledBound(k - 1, k - 1); }
    assert Doubled(5) == 2048;
    assert Doubled(10) == 65536;
    assert Doubled(15) == 2097152;
    assert Doubled(20) == 67108864;
  }

  /** Doubling stops exactly when the table holds 2^31 entries. */
  lemma CapacityGrows(n: nat)
    requires Capacity(n)
    ensures n <= 0x8000_0000 && (n > 2147483647 <==> n == 0x8000_0000)
    ensures n <= 2147483647 ==> Capacity(if n == 0 then 64 else 2 * n)
  {
    assert Doubled(0) == 64;
    if n != 0 {
      var k :| 0 <= k <= 25 && n == Doubled(k);
      DoubledBound(k, 25);
      if k < 25 {
        DoubledBound(k + 1, 25);
        assert 2 * n == Doubled(k + 1);
      }
    }
  }

  class ChunkWriter {
    const codec: Codec
    const file: File
    var buffer: Buffer
    var offsets: seq<nat>
    var offsetCapacity: nat
    var currentChunkIndex: nat
    /** The saved chunks before compression, and the accepted blocks. */
    ghost var chunks: seq<Buffer>
    ghost var blocks: seq<Placed>
    /** Whether finish has saved the last chunk. */
    ghost var finished: bool

    ghost predicate Sound()
      reads this, file
    {
      && file.pos == |file.bytes| && file.bytes != []
      && |buffer| < U32_LIMIT
      && OnFile(codec, file.bytes, offsets, chunks)
      && currentChunkIndex == |offsets| == |chunks| && |offsets| <= offsetCapacity && Capacity(offsetCapacity)
      && Accounts(chunks, buffer, blocks)
      && forall i :: 0 <= i < |chunks| ==> 0 < |chunks[i]| < U32_LIMIT
    }

    /** Every saved chunk has at least 64 KiB, except the last one after finish. */
    ghost predicate Valid()
      reads this, file
    {
      && Sound() && (finished ==> buffer == [])
      && forall i :: 0 <= i < |chunks| && (finished ==> i + 1 < |chunks|) ==> CHUNK_SIZE <= |chunks[i]|
    }

    /** udx_chunk_writer_open */
    constructor (codec: Codec, file: File)
      requires file.pos == |file.bytes| && file.bytes != []
      ensures Valid() && this.file == file && this.codec == codec && blocks == [] && !finished
      ensures Now() == Packing([], [], |file.bytes|)
    {
      this.codec, this.file := codec, file;
      buffer, offsets, offsetCapacity, currentChunkIndex := [], [], 0, 0;
      chunks, blocks, finished := [], [], false;
    }

    ghost function Now(): Packing
      reads this, file
    {
      Packing(chunks, buffer, |file.bytes|)
    }

    /** The offset table after making room for one more entry. */
    method Reserve() returns (ok: bool)
      requires Capacity(offsetCapacity) && |offsets| <= offsetCapacity
      modifies this`offsetCapacity
      ensures Capacity(offsetCapacity) && |offsets| <= offsetCapacity
      ensures ok <==> |offsets| < 0x8000_0000
      ensures ok ==> |offsets| < offsetCapacity
    {
      CapacityGrows(offsetCapacity);
      if |offsets| >= offsetCapacity {
        if offsetCapacity == 0 {
          offsetCapacity := 64;
        } else {
          if offsetCapacity > 2147483647 {
            return false;
          }
          offsetCapacity := offsetCapacity * 2;
        }
      }
      CapacityGrows(offsetCapacity);
      ok := true;
    }

    /** Compress the live buffer and append it to the file. */
    method WriteChunk() returns (ok: bool)
      requires file.pos == |file.bytes|
      modifies file
      ensures file.pos == |file.bytes|
      ensures ok <==> |old(file.bytes)| + |Block(codec, buffer)| < OFFSET_LIMIT
      ensures ok ==> file.bytes == old(file.bytes) + Block(codec, buffer)
      ensures |old(file.bytes)| <= |file.bytes| && file.bytes[..|old(file.bytes)|] == old(file.bytes)
    {
      var compressed := codec.compress(buffer);
      ok := file.Write(Le32(|buffer|));
      if ok { ok := file.Write(Le32(|compressed|)); }
      if ok { ok := file.Write(compressed); }
      if ok { assert file.bytes == old(file.bytes) + Block(codec, buffer); }
    }

    /** chunk_writer_save_current. The chunk index never reaches its 32-bit limit: the offset table gives out first. */
    method SaveCurrent() returns (ok: bool)
      requires Sound()
      modifies this, file
      ensures Sound() && blocks == old(blocks) && finished == old(finished)
      ensures ok <==> Saves(codec, old(Now()))
      ensures ok <==>
        || old(buffer) == []
        || (|old(chunks)| < 0x8000_0000
            && |old(file.bytes)| + 8 + |codec.compress(old(buffer))| < 0x8000_0000_0000_0000)
      ensures !ok ==> chunks == old(chunks) && buffer == old(buffer)
      ensures ok ==> buffer == [] && chunks == old(chunks) + if old(buffer) == [] then [] else [old(buffer)]
      ensures ok ==> file.bytes == old(file.bytes) + if old(buffer) == [] then [] else Block(codec, old(buffer))
    {
      hide Located, Block, Capacity, Joined, DataOf, AddrMake, Doubled;
      ClosesMeans(codec, Now());
      if |buffer| == 0 {
        return true;
      }
      var offset := file.pos;
      ghost var b := file.bytes;
      ok := Reserve();
      if !ok {
        return;
      }
      ok := WriteChunk();
      if !ok {
        assert file.bytes == b + file.bytes[|b|..];
        OnFileGrown(codec, b, file.bytes[|b|..], offsets, chunks);
        return;
      }
      OnFileSaved(codec, b, offsets, chunks, buffer);
      AccountsSaved(chunks, buffer, blocks);
      CapacityGrows(offsetCapacity);
      offsets := offsets + [offset];
      chunks := chunks + [buffer];
      buffer := [];
      assert currentChunkIndex < U32_LIMIT - 1;
      if currentChunkIndex >= U32_LIMIT - 1 {
        return false;
      }
      currentChunkIndex := currentChunkIndex + 1;
    }

    /** udx_chunk_writer_add_block */
    method AddBlock(data: Buffer) returns (address: nat)
      requires Valid() && !finished && |data| < U32_LIMIT
      modifies this, file
      ensures Valid() && !finished
      ensures address != INVALID_ADDRESS <==> Packed(codec, old(Now()), data).Some?
      ensures address != INVALID_ADDRESS <==>
        && data != [] && |old(buffer)| + |data| < 0x1_0000_0000
        && (|old(buffer)| < 65536
            || (|old(chunks)| < 0x8000_0000
                && |old(file.bytes)| + 8 + |codec.compress(old(buffer))| < 0x8000_0000_0000_0000))
      ensures address != INVALID_ADDRESS ==>
        if |old(buffer)| < 65536
        then address == |old(chunks)| * 65536 + |old(buffer)| && chunks == old(chunks) && buffer == old(buffer) + data
        else address == (|old(chunks)| + 1) * 65536 && chunks == old(chunks) + [old(buffer)] && buffer == data
      ensures address == INVALID_ADDRESS ==> blocks == old(blocks) && chunks == old(chunks) && buffer == old(buffer)
      ensures address != INVALID_ADDRESS ==>
        && Packed(codec, old(Now()), data) == Some(Now()) && |data| <= |buffer| && address == LastAddress(Now(), |data|)
        && blocks == old(blocks) + [Placed(address, data)] && address < 0x1_0000_0000_0000
    {
      hide Located, Block, Capacity, Joined, DataOf, AddrMake, Accounts, OnFile;
      PackedMeans(codec, Now(), data);
      if |data| == 0 {
        return INVALID_ADDRESS;
      }
      if |data| > U32_LIMIT - 1 - |buffer| {
        return INVALID_ADDRESS;
      }
      if |buffer| >= CHUNK_SIZE {
        var ok := SaveCurrent();
        if !ok {
          return INVALID_ADDRESS;
        }
        assert buffer + data == data;
      }
      CapacityGrows(offsetCapacity);
      AccountsAdded(chunks, buffer, blocks, data);
      address := AddrMake(currentChunkIndex, |buffer|);
      buffer := buffer + data;
      blocks := blocks + [Placed(address, data)];
    }

    /** udx_chunk_writer_finish: the rest of the buffer as a last chunk, and the offset table behind it. */
    method Finish() returns (table: nat)
      requires Valid() && !finished
      modifies this, file
      ensures blocks == old(blocks)
      ensures table != 0 ==> Valid() && finished && HasTable(file.bytes, table, offsets)
      ensures table != 0 <==> Closes(codec, old(Now()))
      ensures table != 0 ==> |file.bytes| == ClosedSize(codec, old(Now()))
      ensures table != 0 ==> chunks == ClosedChunks(old(Now()))
      ensures table != 0 <==>
        && (old(buffer) == [] || |old(chunks)| < 0x8000_0000)
        && |old(file.bytes)| + (if old(buffer) == [] then 0 else 8 + |codec.compress(old(buffer))|)
           + 8 + 8 * (|old(chunks)| + if old(buffer) == [] then 0 else 1) < 0x8000_0000_0000_0000
      ensures table != 0 ==>
        && table == |old(file.bytes)| + (if old(buffer) == [] then 0 else 8 + |codec.compress(old(buffer))|)
        && |file.bytes| == table + 8 + 8 * |chunks|
        && chunks == old(chunks) + if old(buffer) == [] then [] else [old(buffer)]
    {
      hide Located, Block, Joined, DataOf, AddrMake, Accounts, OnFile, Capacity, Le64, Words;
      if |buffer| > 0 {
        var ok := SaveCurrent();
        if !ok {
          return 0;
        }
      }
      table := file.pos;
      ghost var b := file.bytes;
      var ok := WriteTable();
      if !ok {
        return 0;
      }
      OnFileGrown(codec, b, Le64(|offsets|) + Words(offsets), offsets, chunks);
      assert file.bytes[|b|..] == Le64(|offsets|) + Words(offsets);
      finished := true;
    }

    /** The chunk table at the end of the file. */
    method WriteTable() returns (ok: bool)
      requires file.pos == |file.bytes|
      modifies file
      ensures ok ==> file.bytes == old(file.bytes) + (Le64(|offsets|) + Words(offsets)) && file.pos == |file.bytes|
      ensures ok <==> |old(file.bytes)| + 8 + 8 * |offsets| < OFFSET_LIMIT
    {
      hide Le64;
      ok := file.Write(Le64(|offsets|));
      if !ok {
        return false;
      }
      if |offsets| > 0 {
        var words := OffsetWords(offsets);
        ok := file.Write(words);
      } else {
        assert Words(offsets) == [];
      }
      if ok { assert file.bytes == old(file.bytes) + (Le64(|offsets|) + Words(offsets)); }
    }
  }

  method OffsetWords(offs: seq<nat>) returns (b: Buffer)
    ensures b == Words(offs)
  {
    b := [];
    var i := 0;
    while i < |offs|
      invariant 0 <= i <= |offs| && b == Words(offs[..i])
    {
      assert offs[..i + 1][..i] == offs[..i];
      b := b + Le64(offs[i]);
      i := i + 1;
    }
    assert offs[..i] == offs;
  }

  /** [count:u64] [offset_0:u64] [offset_1:u64] ... */
  ghost predicate HasTable(b: Buffer, p: nat, offsets: seq<nat>) {
    At(b, p, Le64(|offsets|) + Words(offsets))
  }

  // ---------------------------------------------------------------- the reader

  /** The chunk that starts at an offset, decoded from the file without any cache. */
  function ChunkAt(c: Codec, b: Buffer, off: nat): Option<Buffer> {
    if off >= OFFSET_LIMIT || off + 8 > |b| then None
    else
      var u, z := D32(b[off..off + 4]), D32(b[off + 4..off + 8]);
      if u == 0 || z == 0 || off + 8 + z > |b| then None else Inflated(c, b[off + 8..off + 8 + z], u)
  }

  /** A block fetched by a reader that remembers nothing. */
  function Fetched(c: Codec, b: Buffer, offsets: seq<nat>, address: nat, size: nat): Option<Buffer> {
    var i, off := AddrChunk(address), AddrOffset(address);
    if size == 0 || i >= |offsets| then None
    else
      match ChunkAt(c, b, offsets[i])
      case None => None
      case Some(d) => if off + size > |d| then None else Some(d[off..off + size])
  }

  /** What has to lie in the file for block r to be found at an address: the chunk that bits 16 to 47 name, whole and
      decoded to its announced size, with r at the offset that the lower 16 bits name. */
  lemma FetchedIff(c: Codec, b: Buffer, offsets: seq<nat>, address: nat, size: nat, r: Buffer)
    ensures Fetched(c, b, offsets, address, size) == Some(r) <==>
      var k, o := address / 65536 % 0x1_0000_0000, address % 65536;
      && 0 < size == |r| && k < |offsets| && offsets[k] < 0x8000_0000_0000_0000 && offsets[k] + 8 <= |b|
      && var p := offsets[k];
         var u, z := D32(b[p..p + 4]), D32(b[p + 4..p + 8]);
         && 0 < u && 0 < z && p + 8 + z <= |b|
         && var d := c.decompress(b[p + 8..p + 8 + z]);
            d.Some? && |d.value| == u && o + size <= |d.value| && d.value[o..o + size] == r
  {
    hide D32;
  }

  class ChunkReader {
    const codec: Codec
    const file: File
    var offsets: seq<nat>
    var cachedData: Buffer
    var cachedIndex: nat
    var hasCache: bool

    /** The cache, when there is one, is the decoded chunk at its index. */
    ghost predicate Valid()
      reads this, file
    {
      && (forall i :: 0 <= i < |offsets| ==> offsets[i] < U64_LIMIT)
      && (hasCache ==> cachedIndex < |offsets| && ChunkAt(codec, file.bytes, offsets[cachedIndex]) == Some(cachedData))
    }

    constructor (codec: Codec, file: File)
      ensures this.codec == codec && this.file == file && Valid() && offsets == [] && !hasCache
    {
      this.codec, this.file := codec, file;
      offsets, cachedData, cachedIndex, hasCache := [], [], 0, false;
    }

    /** udx_chunk_reader_create: the chunk table, whatever stands in the file. */
    method ReadTable(table: u64) returns (ok: bool)
      requires Valid() && !hasCache && offsets == []
      modifies this`offsets, file`pos
      ensures Valid() && !hasCache
      ensures ok <==> table + 8 <= |file.bytes| && table + 8 + 8 * D64(file.bytes[table..table + 8]) <= |file.bytes|
      ensures ok ==> |offsets| == D64(file.bytes[table..table + 8])
      ensures ok ==> forall i :: 0 <= i < |offsets| ==>
        table + 8 + 8 * i + 8 <= |file.bytes| && offsets[i] == D64(file.bytes[table + 8 + 8 * i..table + 8 + 8 * i + 8])
    {
      hide D64;
      ok := file.Seek(table);
      if !ok {
        return false;
      }
      var d;
      ok, d := file.Read(8);
      if !ok {
        return false;
      }
      var count := D64(d);
      ok, d := file.Read(8 * count);
      if !ok {
        return false;
      }
      ghost var start := table + 8;
      var words: seq<nat> := [];
      var i := 0;
      while i < count
        invariant 0 <= i <= count && |words| == i
        invariant forall j :: 0 <= j < i ==> words[j] < U64_LIMIT
        invariant forall j :: 0 <= j < i ==>
          start + 8 * j + 8 <= |file.bytes| && words[j] == D64(file.bytes[start + 8 * j..start + 8 * j + 8])
      {
        SliceOfSlice(file.bytes, start, 8 * count, 8 * i, 8);
        words := words + [D64(d[8 * i..8 * i + 8])];
        i := i + 1;
      }
      offsets := words;
    }

    /** chunk_reader_load_chunk */
    method LoadChunk(i: nat) returns (ok: bool)
      requires Valid()
      modifies this`cachedData, this`cachedIndex, this`hasCache, file`pos
      ensures Valid()
      ensures ok <==> i < |offsets| && ChunkAt(codec, file.bytes, offsets[i]).Some?
      ensures ok ==> ChunkAt(codec, file.bytes, offsets[i]) == Some(cachedData)
    {
      hide D32;
      if i >= |offsets| {
        return false;
      }
      if hasCache && cachedIndex == i {
        return true;
      }
      ok := file.Seek(offsets[i]);
      if !ok {
        return false;
      }
      hasCache := false;
      var u, z;
      ok, u := file.Read(4);
      if !ok {
        return false;
      }
      ok, z := file.Read(4);
      if !ok {
        return false;
      }
      var size, compressed := D32(u), D32(z);
      if size == 0 || compressed == 0 {
        return false;
      }
      var src;
      ok, src := file.Read(compressed);
      if !ok {
        return false;
      }
      match Inflated(codec, src, size) {
        case None =>
          cachedData := [];
          ok := false;
        case Some(data) =>
          cachedData, cachedIndex, hasCache := data, i, true;
      }
    }

    /** udx_chunk_reader_get_block: always what a reader without a cache would return. */
    method GetBlock(address: u64, size: u32) returns (data: Option<Buffer>)
      requires Valid()
      modifies this`cachedData, this`cachedIndex, this`hasCache, file`pos
      ensures Valid() && data == Fetched(codec, file.bytes, offsets, address, size)
    {
      hide ChunkAt;
      if size == 0 {
        return None;
      }
      var offset := AddrOffset(address);
      var ok := LoadChunk(AddrChunk(address));
      if !ok {
        return None;
      }
      if offset + size > |cachedData| {
        return None;
      }
      data := Some(cachedData[offset..offset + size]);
    }
  }

  datatype Request = Request(address: u64, size: u32)

  /** Any history of requests: the cache never shows. */
  method GetBlocks(reader: ChunkReader, requests: seq<Request>) returns (answers: seq<Option<Buffer>>)
    requires reader.Valid()
    modifies reader, reader.file`pos
    ensures reader.Valid() && |answers| == |requests|
    ensures forall i :: 0 <= i < |requests| ==>
      answers[i] == Fetched(reader.codec, reader.file.bytes, old(reader.offsets), requests[i].address, requests[i].size)
  {
    hide Fetched;
    answers := [];
    var i := 0;
    while i < |requests|
      invariant 0 <= i <= |requests| && |answers| == i && reader.Valid() && reader.offsets == old(reader.offsets)
      invariant forall j :: 0 <= j < i ==>
        answers[j] == Fetched(reader.codec, reader.file.bytes, reader.offsets, requests[j].address, requests[j].size)
    {
      var answer := reader.GetBlock(requests[i].address, requests[i].size);
      answers := answers + [answer];
      i := i + 1;
    }
  }

  // ---------------------------------------------------------------- there and back

  /** A chunk comes back exactly when its compressed size fits 32 bits; the writer casts it without a check. */
  lemma ChunkBack(c: Codec, b: Buffer, off: nat, chunk: Buffer)
    requires Lawful(c) && Terminated(c) && At(b, off, Block(c, chunk)) && 0 < |chunk| < U32_LIMIT && |b| < OFFSET_LIMIT
    ensures ChunkAt(c, b, off) == if |c.compress(chunk)| < U32_LIMIT then Some(chunk) else None
  {
    hide D32, Le32;
    var z := c.compress(chunk);
    assert z != [] && c.decompress(z) == Some(chunk);
    if |z| < U32_LIMIT {
      BlockFields(c, b, off, chunk);
    } else {
      CutBlock(c, b, off, chunk);
      var k := |z| % U32_LIMIT;
      if k != 0 && off + 8 + k <= |b| {
        SliceOfSlice(b, off + 8, |z|, 0, k);
        assert b[off + 8..off + 8 + k] == z[..k];
      }
    }
  }

  lemma CutBlock(c: Codec, b: Buffer, off: nat, chunk: Buffer)
    requires At(b, off, Block(c, chunk)) && |chunk| < U32_LIMIT
    ensures var z := c.compress(chunk);
      && off + 8 + |z| <= |b| && D32(b[off + 4..off + 8]) == |z| % U32_LIMIT && b[off + 8..off + 8 + |z|] == z
  {
    hide D32;
    var z := c.compress(chunk);
    ThreeFields(b, off, Le32(|chunk|), Le32(|z|), z);
    LeRead(|z|);
  }

  /** The chunk that an address names. */
  function HomeAt(chunks: seq<Buffer>, address: nat): Buffer {
    if AddrChunk(address) < |chunks| then chunks[AddrChunk(address)] else []
  }

  /** Every block comes back from its address, byte for byte, unless its chunk does not compress to below 4 GiB. */
  lemma BlockComesBack(c: Codec, b: Buffer, offsets: seq<nat>, chunks: seq<Buffer>, blocks: seq<Placed>, i: nat)
    requires Lawful(c) && Terminated(c) && OnFile(c, b, offsets, chunks) && Accounts(chunks, [], blocks) && i < |blocks|
    requires |b| < OFFSET_LIMIT && forall j :: 0 <= j < |chunks| ==> 0 < |chunks[j]| < U32_LIMIT
    ensures var p := blocks[i];
      Fetched(c, b, offsets, p.address, |p.data|)
      == if |c.compress(HomeAt(chunks, p.address))| < U32_LIMIT then Some(p.data) else None
  {
    hide Block, ChunkAt, AddrChunk, AddrOffset, Joined, DataOf, Lawful, Terminated;
    var p := blocks[i];
    assert Located(chunks, [], p);
    var k := AddrChunk(p.address);
    assert k < |chunks|;
    ChunkBack(c, b, offsets[k], chunks[k]);
  }

  /** The table read back is the table written. */
  lemma TableBack(b: Buffer, table: nat, offsets: seq<nat>)
    requires HasTable(b, table, offsets) && |offsets| < U64_LIMIT
    requires forall i :: 0 <= i < |offsets| ==> offsets[i] < U64_LIMIT
    ensures table + 8 + 8 * |offsets| <= |b| && D64(b[table..table + 8]) == |offsets|
    ensures forall i :: 0 <= i < |offsets| ==> D64(b[table + 8 + 8 * i..table + 8 + 8 * i + 8]) == offsets[i]
  {
    hide Words;
    AtParts(b, table, Le64(|offsets|), Words(offsets));
    WordStored(b, table, |offsets|);
    forall i | 0 <= i < |offsets| ensures D64(b[table + 8 + 8 * i..table + 8 + 8 * i + 8]) == offsets[i] {
      WordAt(offsets, i);
      AtInside(b, table + 8, Words(offsets), 8 * i, Le64(offsets[i]));
      WordStored(b, table + 8 + 8 * i, offsets[i]);
    }
  }

  /** A finished store: chunks in the file, their table, and the blocks in them. */
  ghost predicate Finished(c: Codec, b: Buffer, table: nat, offsets: seq<nat>, chunks: seq<Buffer>,
                           blocks: seq<Placed>) {
    && OnFile(c, b, offsets, chunks) && Accounts(chunks, [], blocks) && HasTable(b, table, offsets)
    && |chunks| < U32_LIMIT && |b| < OFFSET_LIMIT
    && forall i :: 0 <= i < |chunks| ==> 0 < |chunks[i]| < U32_LIMIT
  }

  /** Address a is the one that packing gives block j. */
  ghost predicate PackedAt(c: Codec, size: nat, data: seq<Buffer>, j: nat, a: nat)
    requires j < |data|
  {
    var w := PackedAll(c, Packing([], [], size), data[..j + 1]);
    w.Some? && |data[j]| <= |w.value.buffer| && a == LastAddress(w.value, |data[j]|)
  }

  lemma PackedNext(c: Codec, size: nat, data: seq<Buffer>, j: nat)
    requires j < |data|
    ensures var w := PackedAll(c, Packing([], [], size), data[..j]);
      var v := PackedAll(c, Packing([], [], size), data[..j + 1]);
      && (w.None? ==> v.None?)
      && (w.Some? ==> v == Packed(c, w.value, data[j]))
      && (v.Some? && |data[j]| <= |v.value.buffer| ==> PackedAt(c, size, data, j, LastAddress(v.value, |data[j]|)))
  {
    hide Packed, LastAddress;
    assert data[..j + 1][..j] == data[..j];
  }

  lemma PackedNone(c: Codec, size: nat, data: seq<Buffer>)
    ensures PackedAll(c, Packing([], [], size), data[..0]) == Some(Packing([], [], size)) && data[..|data|] == data
  {
  }

  /** The first address is 0, and each one follows from the one before it. */
  lemma AddressLaw(c: Codec, size: nat, data: seq<Buffer>, addresses: seq<nat>)
    requires |addresses| <= |data|
    requires forall j :: 0 <= j < |addresses| ==> PackedAt(c, size, data, j, addresses[j])
    ensures forall j :: 0 <= j < |addresses| ==>
      addresses[j] == if j == 0 then 0
                      else if addresses[j - 1] % 65536 + |data[j - 1]| < 65536 then addresses[j - 1] + |data[j - 1]|
                      else (addresses[j - 1] / 65536 + 1) * 65536
  {
    hide PackedAll, Packed, LastAddress;
    forall j | 0 <= j < |addresses|
      ensures addresses[j] == if j == 0 then 0
              else if addresses[j - 1] % 65536 + |data[j - 1]| < 65536 then addresses[j - 1] + |data[j - 1]|
              else (addresses[j - 1] / 65536 + 1) * 65536
    {
      assert PackedAt(c, size, data, j, addresses[j]);
      PackedLast(c, size, data, j);
      if j > 0 {
        assert PackedAt(c, size, data, j - 1, addresses[j - 1]);
        PackedLast(c, size, data, j - 1);
        assert data[..j - 1 + 1] == data[..j];
      }
    }
  }

  lemma PackedLast(c: Codec, size: nat, data: seq<Buffer>, j: nat)
    requires j < |data| && PackedAll(c, Packing([], [], size), data[..j + 1]).Some?
    ensures var w := PackedAll(c, Packing([], [], size), data[..j]);
      var v := PackedAll(c, Packing([], [], size), data[..j + 1]);
      && w.Some? && (j == 0 ==> w.value == Packing([], [], size)) && |data[j]| <= |v.value.buffer|
      && var a := LastAddress(v.value, |data[j]|);
         && |v.value.chunks| == a / 65536 && |v.value.buffer| == a % 65536 + |data[j]|
         && a == if |w.value.buffer| < 65536 then |w.value.chunks| * 65536 + |w.value.buffer|
                 else (|w.value.chunks| + 1) * 65536
  {
    hide Packed, LastAddress;
    assert data[..j + 1][..j] == data[..j];
    PackedMeans(c, PackedAll(c, Packing([], [], size), data[..j]).value, data[j]);
  }

  /** Writing any blocks and finishing: this succeeds if and only if every block can be packed and the store closed. A
      block goes right behind the one before it as long as that begins and ends in the first 64 KiB of its chunk, and
      otherwise to the beginning of the next chunk. */
  method StoreAll(codec: Codec, file: File, data: seq<Buffer>)
    returns (table: nat, addresses: seq<nat>,
             ghost offsets: seq<nat>, ghost chunks: seq<Buffer>, ghost blocks: seq<Placed>)
    requires file.pos == |file.bytes| && file.bytes != [] && forall i :: 0 <= i < |data| ==> |data[i]| < U32_LIMIT
    modifies file
    ensures table != 0 <==>
      var w := PackedAll(codec, Packing([], [], |old(file.bytes)|), data); w.Some? && Closes(codec, w.value)
    ensures table != 0 ==>
      chunks == ClosedChunks(PackedAll(codec, Packing([], [], |old(file.bytes)|), data).value)
    ensures table != 0 ==>
      && Finished(codec, file.bytes, table, offsets, chunks, blocks) && |blocks| == |addresses| == |data|
      && forall i :: 0 <= i < |data| ==> blocks[i] == Placed(addresses[i], data[i]) && addresses[i] < U64_LIMIT
    ensures table != 0 ==> forall i :: 0 <= i < |data| ==>
      addresses[i] == if i == 0 then 0
                      else if addresses[i - 1] % 65536 + |data[i - 1]| < 65536 then addresses[i - 1] + |data[i - 1]|
                      else (addresses[i - 1] / 65536 + 1) * 65536
  {
    hide Located, Block, Accounts, OnFile, HasTable, Capacity, LastAddress, Packed, PackedAll, PackedAt;
    ghost var start := Packing([], [], |file.bytes|);
    var writer := new ChunkWriter(codec, file);
    addresses, offsets, chunks, blocks := [], [], [], [];
    PackedNone(codec, |file.bytes|, data);
    var i := 0;
    while i < |data|
      invariant 0 <= i <= |data| && writer.Valid() && !writer.finished && fresh(writer)
      invariant writer.file == file && writer.codec == codec && |addresses| == |writer.blocks| == i
      invariant PackedAll(codec, start, data[..i]) == Some(writer.Now())
      invariant forall j :: 0 <= j < i ==>
        writer.blocks[j] == Placed(addresses[j], data[j]) && addresses[j] < U64_LIMIT
      invariant forall j :: 0 <= j < i ==> PackedAt(codec, |old(file.bytes)|, data, j, addresses[j])
    {
      PackedNext(codec, |old(file.bytes)|, data, i);
      var address := writer.AddBlock(data[i]);
      if address == INVALID_ADDRESS {
        PackedPrefix(codec, start, data, i + 1);
        return 0, addresses, offsets, chunks, blocks;
      }
      addresses := addresses + [address];
      i := i + 1;
    }
    AddressLaw(codec, |old(file.bytes)|, data, addresses);
    table := writer.Finish();
    if table != 0 { CapacityGrows(writer.offsetCapacity); }
    offsets, chunks, blocks := writer.offsets, writer.chunks, writer.blocks;
  }

  /** Reading blocks back by address. */
  method FetchAll(codec: Codec, file: File, table: u64, blocks: seq<Placed>, ghost offsets: seq<nat>,
                  ghost chunks: seq<Buffer>)
    returns (ok: bool, back: seq<Option<Buffer>>)
    requires Lawful(codec) && Terminated(codec) && Finished(codec, file.bytes, table, offsets, chunks, blocks)
    requires forall i :: 0 <= i < |blocks| ==> blocks[i].address < U64_LIMIT && |blocks[i].data| < U32_LIMIT
    modifies file`pos
    ensures ok && |back| == |blocks|
    ensures forall i :: 0 <= i < |blocks| ==>
      back[i] == if |codec.compress(HomeAt(chunks, blocks[i].address))| < U32_LIMIT then Some(blocks[i].data) else None
  {
    hide Finished, Fetched, Lawful, Terminated, HomeAt;
    back := [];
    FinishedTable(codec, file.bytes, table, offsets, chunks, blocks);
    var reader := new ChunkReader(codec, file);
    ok := reader.ReadTable(table);
    assert reader.offsets == offsets;
    var i := 0;
    while i < |blocks|
      invariant 0 <= i <= |blocks| && |back| == i && reader.Valid() && fresh(reader) && reader.offsets == offsets
      invariant reader.file == file && reader.codec == codec
      invariant forall j :: 0 <= j < i ==>
        back[j] == if |codec.compress(HomeAt(chunks, blocks[j].address))| < U32_LIMIT then Some(blocks[j].data)
                   else None
    {
      var block := reader.GetBlock(blocks[i].address, |blocks[i].data|);
      FinishedBlock(codec, file.bytes, table, offsets, chunks, blocks, i);
      back := back + [block];
      i := i + 1;
    }
  }

  lemma FinishedTable(c: Codec, b: Buffer, table: nat, offsets: seq<nat>, chunks: seq<Buffer>, blocks: seq<Placed>)
    requires Finished(c, b, table, offsets, chunks, blocks)
    ensures table + 8 + 8 * |offsets| <= |b| && D64(b[table..table + 8]) == |offsets|
    ensures forall i :: 0 <= i < |offsets| ==> D64(b[table + 8 + 8 * i..table + 8 + 8 * i + 8]) == offsets[i]
  {
    hide Accounts, D64, Block, HasTable;
    TableBack(b, table, offsets);
  }

  lemma FinishedBlock(c: Codec, b: Buffer, table: nat, offsets: seq<nat>, chunks: seq<Buffer>, blocks: seq<Placed>,
                      i: nat)
    requires Lawful(c) && Terminated(c) && Finished(c, b, table, offsets, chunks, blocks) && i < |blocks|
    ensures Fetched(c, b, offsets, blocks[i].address, |blocks[i].data|)
            == if |c.compress(HomeAt(chunks, blocks[i].address))| < U32_LIMIT then Some(blocks[i].data) else None
  {
    hide Fetched, Lawful, Terminated, Accounts, OnFile, HasTable;
    BlockComesBack(c, b, offsets, chunks, blocks, i);
  }
}
