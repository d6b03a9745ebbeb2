// Files as byte sequences with a position, and compressed blocks in them.

module Files {
  import opened Bytes

  /** File positions are signed 64-bit numbers. */
  const OFFSET_LIMIT: int := 0x8000_0000_0000_0000

  type offset = x: int | 0 <= x < OFFSET_LIMIT

  type FileBytes = b: Buffer | |b| < OFFSET_LIMIT

  // ---------------------------------------------------------------- casts

  /** A C integer cast to 16, 32 or 64 bits, in little-endian order. */
  function Le16(n: nat): (b: Buffer)
    ensures |b| == 2
  {
    U16(n % U16_LIMIT)
  }

  function Le32(n: nat): (b: Buffer)
    ensures |b| == 4
  {
    U32(n % U32_LIMIT)
  }

  function Le64(n: nat): (b: Buffer)
    ensures |b| == 8
  {
    U64(n % U64_LIMIT)
  }

  lemma LeRead(n: nat)
    ensures D16(Le16(n)) == n % U16_LIMIT && D32(Le32(n)) == n % U32_LIMIT && D64(Le64(n)) == n % U64_LIMIT
  {
    RoundTrip16(n % U16_LIMIT);
    RoundTrip32(n % U32_LIMIT);
    RoundTrip64(n % U64_LIMIT);
  }

  lemma LeExact(n: nat)
    requires n < U32_LIMIT
    ensures D32(Le32(n)) == n
  {
    RoundTrip32(n);
  }

  // ---------------------------------------------------------------- contents

  /** d lies in b at position p. */
  predicate At(b: Buffer, p: int, d: Buffer) {
    0 <= p && p + |d| <= |b| && b[p..p + |d|] == d
  }

  /** b after d has been written over it at position p. */
  function Written(b: Buffer, p: nat, d: Buffer): (r: Buffer)
    requires p <= |b|
    ensures |r| == if p + |d| <= |b| then |b| else p + |d|
  {
    b[..p] + d + if p + |d| <= |b| then b[p + |d|..] else []
  }

  /** Byte by byte: what lies at a position, and what a write leaves behind. */
  lemma AtIff(b: Buffer, p: int, d: Buffer)
    ensures At(b, p, d) <==> 0 <= p && p + |d| <= |b| && forall k :: 0 <= k < |d| ==> b[p + k] == d[k]
  {
    if 0 <= p && p + |d| <= |b| {
      var w := b[p..p + |d|];
      assert forall k :: 0 <= k < |d| ==> w[k] == b[p + k];
    }
  }

  lemma WrittenIs(b: Buffer, p: nat, d: Buffer)
    requires p <= |b|
    ensures At(Written(b, p, d), p, d)
    ensures forall k :: 0 <= k < |b| && !(p <= k < p + |d|) ==> Written(b, p, d)[k] == b[k]
  {
  }

  lemma AtParts(b: Buffer, p: int, x: Buffer, y: Buffer)
    ensures At(b, p, x + y) <==> At(b, p, x) && At(b, p + |x|, y)
  {
    if 0 <= p && p + |x| + |y| <= |b| {
      var w := b[p..p + |x| + |y|];
      assert w[..|x|] == b[p..p + |x|] && w[|x|..] == b[p + |x|..p + |x| + |y|];
      assert (x + y)[..|x|] == x && (x + y)[|x|..] == y;
      assert w == w[..|x|] + w[|x|..];
    }
  }

  lemma ThreeFields(b: Buffer, p: nat, x: Buffer, y: Buffer, z: Buffer)
    requires At(b, p, x + y + z)
    ensures p + |x| + |y| + |z| <= |b| && b[p..p + |x|] == x && b[p + |x|..p + |x| + |y|] == y
    ensures b[p + |x| + |y|..p + |x| + |y| + |z|] == z
  {
    AtParts(b, p, x + y, z);
    AtParts(b, p, x, y);
  }

  lemma AtInside(b: Buffer, p: int, x: Buffer, q: int, y: Buffer)
    requires At(b, p, x) && At(x, q, y)
    ensures At(b, p + q, y)
  {
    var w := b[p..p + |x|];
    forall k | 0 <= k < |y| ensures b[p + q + k] == y[k] {
      assert w[q + k] == b[p + q + k] && x[q..q + |y|][k] == x[q + k];
    }
  }

  lemma AtGrown(b: Buffer, tail: Buffer, p: int, x: Buffer)
    requires At(b, p, x)
    ensures At(b + tail, p, x)
  {
    assert (b + tail)[p..p + |x|] == b[p..p + |x|];
  }

  // ---------------------------------------------------------------- tables of offsets

  /** Offsets as 64-bit words, one behind the other. */
  function Words(offs: seq<nat>): (b: Buffer)
    ensures |b| == 8 * |offs|
  {
    if offs == [] then [] else Words(offs[..|offs| - 1]) + Le64(offs[|offs| - 1])
  }

  lemma {:induction false} WordAt(offs: seq<nat>, i: nat)
    requires i < |offs|
    ensures At(Words(offs), 8 * i, Le64(offs[i]))
    decreases |offs|
  {
    var n := |offs| - 1;
    if i < n {
      WordAt(offs[..n], i);
      AtGrown(Words(offs[..n]), Le64(offs[n]), 8 * i, Le64(offs[i]));
    }
  }

  lemma WordStored(b: Buffer, p: nat, n: nat)
    requires At(b, p, Le64(n)) && n < U64_LIMIT
    ensures p + 8 <= |b| && D64(b[p..p + 8]) == n
  {
    hide D64, U64;
    LeRead(n);
  }

  // ---------------------------------------------------------------- files

  class File {
    var bytes: FileBytes
    var pos: offset

    constructor (bytes: FileBytes)
      ensures this.bytes == bytes && pos == 0
    {
      this.bytes, pos := bytes, 0;
    }

    /** fseek to an absolute 64-bit position. */
    method Seek(p: u64) returns (ok: bool)
      modifies this`pos
      ensures ok <==> p < OFFSET_LIMIT
      ensures pos == if ok then p else old(pos)
    {
      ok := p < OFFSET_LIMIT;
      if ok { pos := p; }
    }

    /** fwrite: it fails when the file would outgrow its positions. */
    method Write(d: Buffer) returns (ok: bool)
      requires pos <= |bytes|
      modifies this
      ensures ok <==> old(pos) + |d| < OFFSET_LIMIT
      ensures bytes == if ok then Written(old(bytes), old(pos), d) else old(bytes)
      ensures pos == if ok then old(pos) + |d| else old(pos)
    {
      ok := pos + |d| < OFFSET_LIMIT;
      if ok {
        bytes, pos := Written(bytes, pos, d), pos + |d|;
      }
    }

    /** fread of exactly n bytes; a short read ends at the end of the file. */
    method Read(n: nat) returns (ok: bool, d: Buffer)
      modifies this`pos
      ensures ok <==> old(pos) + n <= |bytes|
      ensures ok ==> d == bytes[old(pos)..old(pos) + n] && pos == old(pos) + n
    {
      ok := pos + n <= |bytes|;
      if ok {
        d, pos := bytes[pos..pos + n], pos + n;
      } else {
        d, pos := [], if pos < |bytes| then |bytes| else pos;
      }
    }
  }

  // ---------------------------------------------------------------- compressed blocks

  datatype Codec = Codec(compress: Buffer -> Buffer, decompress: Buffer -> Option<Buffer>)

  /** What is taken for granted of the compression library. */
  ghost predicate Lawful(c: Codec) {
    forall x: Buffer :: c.compress(x) != [] && c.decompress(c.compress(x)) == Some(x)
  }

  /** A compressed stream that has lost its end is recognised. */
  ghost predicate Terminated(c: Codec) {
    forall x: Buffer, n: nat :: n < |c.compress(x)| ==> c.decompress(c.compress(x)[..n]) == None
  }

  /** [uncompressed_size:u32] [compressed_size:u32] [data], with both sizes cast to 32 bits. */
  function Block(c: Codec, data: Buffer): (b: Buffer)
    ensures |b| == 8 + |c.compress(data)|
  {
    Le32(|data|) + Le32(|c.compress(data)|) + c.compress(data)
  }

  /** Both sizes fit their fields. */
  predicate Sized(c: Codec, data: Buffer) {
    |data| < U32_LIMIT && |c.compress(data)| < U32_LIMIT
  }

  /** uncompress: into a buffer of exactly the announced size. */
  function Inflated(c: Codec, src: Buffer, size: nat): Option<Buffer> {
    match c.decompress(src)
    case Some(d) => if |d| == size then Some(d) else None
    case None => None
  }

  /** The fields of a block header and of its data where they lie in a file. */
  lemma BlockFields(c: Codec, bytes: Buffer, p: nat, data: Buffer)
    requires At(bytes, p, Block(c, data)) && Sized(c, data)
    ensures p + 8 + |c.compress(data)| <= |bytes|
    ensures D32(bytes[p..p + 4]) == |data| && D32(bytes[p + 4..p + 8]) == |c.compress(data)|
    ensures bytes[p + 8..p + 8 + |c.compress(data)|] == c.compress(data)
  {
    hide D32, Le32, At;
    var z := c.compress(data);
    ThreeFields(bytes, p, Le32(|data|), Le32(|z|), z);
    LeExact(|data|);
    LeExact(|z|);
  }
}
