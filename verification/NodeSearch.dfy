// Searching the data of one node: the middle-positioning search over the separators of an
// internal node, and the lower bound over the entries of a leaf.

module NodeSearches {
  import opened Bytes
  import opened Entries
  import opened Files
  import opened EntryFormat
  import opened IndexTrees
  import opened IndexLookups
  import opened IndexImages

  // ---------------------------------------------------------------- where things are

  /** Where separator i begins in the pool. */
  function KeyPos(keys: seq<CString>, i: nat): nat
    requires i <= |keys|
  {
    |Pool(keys[..i])|
  }

  lemma KeyPosStep(keys: seq<CString>, i: nat)
    requires i < |keys|
    ensures KeyPos(keys, i + 1) == KeyPos(keys, i) + |keys[i]| + 1
    ensures Pool(keys[..i + 1]) == Pool(keys[..i]) + (keys[i] + [0])
  {
    assert keys[..i + 1][..i] == keys[..i];
  }

  lemma {:induction false} KeyPosLess(keys: seq<CString>, i: nat, j: nat)
    requires i < j <= |keys|
    ensures KeyPos(keys, i) < KeyPos(keys, j)
  {
    KeyPosStep(keys, j - 1);
    if i < j - 1 { KeyPosLess(keys, i, j - 1); }
  }

  /** The pool from separator i on. */
  lemma {:induction false} PoolFrom(keys: seq<CString>, i: nat)
    requires i < |keys|
    ensures At(Pool(keys), KeyPos(keys, i), keys[i] + [0])
    decreases |keys|
  {
    var n := |keys| - 1;
    assert keys[..|keys|] == keys;
    KeyPosStep(keys, n);
    if i < n {
      PoolFrom(keys[..n], i);
      assert keys[..n][..i] == keys[..i];
      AtGrown(Pool(keys[..n]), keys[n] + [0], KeyPos(keys, i), keys[i] + [0]);
    }
  }

  /** Every byte of the pool belongs to one separator or its terminator. */
  lemma {:induction false} Locate(keys: seq<CString>, lo: nat, hi: nat, p: nat) returns (j: nat)
    requires lo < hi <= |keys| && KeyPos(keys, lo) <= p < KeyPos(keys, hi)
    ensures lo <= j < hi && KeyPos(keys, j) <= p < KeyPos(keys, j + 1)
    decreases hi
  {
    if KeyPos(keys, hi - 1) <= p {
      j := hi - 1;
    } else {
      j := Locate(keys, lo, hi - 1, p);
    }
  }

  /** d is the data of an internal node. */
  ghost predicate NodeShape(d: Buffer, offs: seq<nat>, keys: seq<CString>) {
    && d == NodeData(offs, keys) && |offs| < U16_LIMIT
    && (forall i :: 0 <= i < |offs| ==> offs[i] < U64_LIMIT)
    && (offs != [] ==> |offs| == |keys| + 1)
    && (forall i, j :: 0 <= i < j < |keys| ==> Less(keys[i], keys[j]))
  }

  function KeysStart(offs: seq<nat>): nat {
    3 + 8 * |offs|
  }

  lemma NodeParts(d: Buffer, offs: seq<nat>, keys: seq<CString>)
    requires NodeShape(d, offs, keys)
    ensures |d| == KeysStart(offs) + |Pool(keys)| && D16(d[1..3]) == |offs|
    ensures At(d, 3, Words(offs)) && At(d, KeysStart(offs), Pool(keys))
  {
    hide U16, D16;
    var a, b, x, y := [1], Le16(|offs|), Words(offs), Pool(keys);
    LeRead(|offs|);
    AtParts(d, 0, a + b, x + y);
    AtParts(d, 0, a, b);
    AtParts(d, 3, x, y);
    assert d[0..|d|] == d;
  }

  /** [node_type:u8] [child_count:u16] [children:u64 x N] and the separators, each with its terminator. */
  lemma NodeLayout(offs: seq<nat>, keys: seq<CString>, p: seq<nat>)
    requires |offs| < 65536 && forall i :: 0 <= i < |offs| ==> offs[i] < U64_LIMIT
    requires |p| == |keys| + 1 && p[0] == 3 + 8 * |offs|
    requires forall i :: 0 <= i < |keys| ==> p[i + 1] == p[i] + |keys[i]| + 1
    ensures var d := NodeData(offs, keys);
      && |d| == p[|keys|] && d[0] == 1 && D16(d[1..3]) == |offs|
      && (forall i :: 0 <= i < |offs| ==> 8 * i + 11 <= |d| && D64(d[3 + 8 * i..11 + 8 * i]) == offs[i])
      && (forall i :: 0 <= i < |keys| ==> At(d, p[i], keys[i] + [0]))
  {
    hide U16, D16, D64, U64, Pool, Le64;
    var d, x, y := NodeData(offs, keys), Words(offs), Pool(keys);
    LeRead(|offs|);
    AtParts(d, 0, [1] + Le16(|offs|), x + y);
    AtParts(d, 0, [1], Le16(|offs|));
    AtParts(d, 3, x, y);
    assert d[0..|d|] == d;
    forall i | 0 <= i < |offs| ensures 8 * i + 11 <= |d| && D64(d[3 + 8 * i..11 + 8 * i]) == offs[i] {
      WordAt(offs, i);
      AtInside(d, 3, x, 8 * i, Le64(offs[i]));
      WordStored(d, 3 + 8 * i, offs[i]);
    }
    forall i | 0 <= i < |keys| ensures At(d, p[i], keys[i] + [0]) {
      PoolFrom(keys, i);
      KeysEnd(keys, p, i);
      AtInside(d, 3 + 8 * |offs|, y, KeyPos(keys, i), keys[i] + [0]);
    }
    KeysEnd(keys, p, |keys|);
    assert keys[..|keys|] == keys;
  }

  lemma {:induction false} KeysEnd(keys: seq<CString>, p: seq<nat>, j: nat)
    requires |p| == |keys| + 1 && j <= |keys|
    requires forall i :: 0 <= i < |keys| ==> p[i + 1] == p[i] + |keys[i]| + 1
    ensures p[j] == p[0] + KeyPos(keys, j)
    decreases j
  {
    if j > 0 {
      KeysEnd(keys, p, j - 1);
      KeyPosStep(keys, j - 1);
    }
  }

  /** Separator j as it lies in the node. */
  lemma KeyInNode(d: Buffer, offs: seq<nat>, keys: seq<CString>, j: nat)
    requires NodeShape(d, offs, keys) && j < |keys|
    ensures var p := KeysStart(offs) + KeyPos(keys, j);
      && p + |keys[j]| < |d| && StrLen(d, p) == |keys[j]| && CStr(d, p) == keys[j]
      && d[p + |keys[j]|] == 0 && (forall i :: p <= i < p + |keys[j]| ==> d[i] != 0)
      && p + |keys[j]| + 1 == KeysStart(offs) + KeyPos(keys, j + 1)
  {
    hide Less, Pool, NodeShape, KeyPos, StrLen;
    NodeParts(d, offs, keys);
    PoolFrom(keys, j);
    var p := KeysStart(offs) + KeyPos(keys, j);
    AtInside(d, KeysStart(offs), Pool(keys), KeyPos(keys, j), keys[j] + [0]);
    CStrStored(d, p, keys[j]);
    KeyPosStep(keys, j);
  }

  /** parse_internal_node and children[i] */
  method ChildOffset(d: Buffer, i: nat, ghost offs: seq<nat>, ghost keys: seq<CString>) returns (off: nat)
    requires NodeShape(d, offs, keys) && i < |offs|
    ensures off == offs[i]
  {
    hide Less, Pool, D64, U64;
    NodeParts(d, offs, keys);
    WordAt(offs, i);
    AtInside(d, 3, Words(offs), 8 * i, Le64(offs[i]));
    LeRead(offs[i]);
    off := D64(d[3 + 8 * i..3 + 8 * i + 8]);
  }

  // ---------------------------------------------------------------- the middle-positioning search

  lemma PassedIs(keys: seq<CString>, k: Buffer, left: bool, r: nat)
    requires r <= |keys| && (forall i :: 0 <= i < r ==> Beyond(keys[i], k, left))
    requires (r < |keys| ==> !Beyond(keys[r], k, left))
    ensures Passed(keys, k, left) == r
  {
  }

  /** Walking back from position test to the beginning of the separator it lies in. */
  method WalkBack(d: Buffer, keysStart: nat, test: nat, ghost offs: seq<nat>, ghost keys: seq<CString>, ghost j: nat)
    returns (closest: nat)
    requires NodeShape(d, offs, keys) && keysStart == KeysStart(offs) && j < |keys|
    requires keysStart + KeyPos(keys, j) <= test < keysStart + KeyPos(keys, j + 1)
    ensures closest == keysStart + KeyPos(keys, j) && closest < |d|
  {
    hide Less, Pool, NodeShape, KeyPos;
    KeyInNode(d, offs, keys, j);
    if j > 0 { KeyInNode(d, offs, keys, j - 1); } else { KeyPosZero(keys); }
    closest := test;
    while closest > keysStart && d[closest - 1] != 0
      invariant keysStart + KeyPos(keys, j) <= closest <= test
    {
      closest := closest - 1;
    }
  }

  lemma KeyPosZero(keys: seq<CString>)
    ensures KeyPos(keys, 0) == 0
  {
  }

  /** The number of separators in front of position stop, counted from the left. */
  method CountKeys(d: Buffer, keysStart: nat, stop: nat, ghost offs: seq<nat>, ghost keys: seq<CString>, ghost j: nat)
    returns (entry: nat)
    requires NodeShape(d, offs, keys) && keysStart == KeysStart(offs) && j <= |keys|
    requires stop == keysStart + KeyPos(keys, j)
    ensures entry == j
  {
    hide Less, Pool, NodeShape, KeyPos;
    entry := 0;
    var next := keysStart;
    KeyPosZero(keys);
    if j > 0 { KeyPosLess(keys, 0, j); }
    while next != stop
      invariant 0 <= entry <= j && next == keysStart + KeyPos(keys, entry)
      decreases j - entry
    {
      if j < entry { KeyPosLess(keys, j, entry); }
      KeyInNode(d, offs, keys, entry);
      next := next + (StrLen(d, next) + 1);
      entry := entry + 1;
    }
    if entry < j { KeyPosLess(keys, entry, j); }
  }

  /** find_child_offset: the child behind all separators not above the key. */
  method FindChildOffset(d: Buffer, key: CString, ghost offs: seq<nat>, ghost keys: seq<CString>) returns (off: nat)
    requires NodeShape(d, offs, keys)
    ensures off == if offs == [] then 0 else offs[Passed(keys, key, false)]
  {
    hide Less, Pool, NodeShape, KeyPos, Passed;
    NodeParts(d, offs, keys);
    ShapeFacts(d, offs, keys);
    var childCount := D16(d[1..3]);
    if childCount == 0 {
      return 0;
    }
    if childCount == 1 {
      NoneToPass(keys, key);
      off := ChildOffset(d, 0, offs, keys);
      return;
    }
    var keysStart := 3 + 8 * childCount;
    var keysEnd := |d|;
    var window := keysStart;
    var windowSize := keysEnd - keysStart;
    ghost var lo, hi := 0, |keys|;
    KeyPosZero(keys);
    KeyPosAll(keys);
    while windowSize > 0
      invariant 0 <= lo <= hi <= |keys|
      invariant window == keysStart + KeyPos(keys, lo) && window + windowSize == keysStart + KeyPos(keys, hi)
      invariant forall i :: 0 <= i < lo ==> Less(keys[i], key)
      invariant hi < |keys| ==> Less(key, keys[hi])
      decreases windowSize
    {
      var test := window + windowSize / 2;
      ghost var j := Locate(keys, lo, hi, test - keysStart);
      var closest := WalkBack(d, keysStart, test, offs, keys, j);
      KeyInNode(d, offs, keys, j);
      if lo < j { KeyPosLess(keys, lo, j); }
      if j + 1 < hi { KeyPosLess(keys, j + 1, hi); }
      var cmp := Compare(key, CStr(d, closest));
      if cmp == 0 {
        var entry := CountKeys(d, keysStart, closest, offs, keys, j);
        PassedEqual(keys, key, j);
        off := ChildOffset(d, entry + 1, offs, keys);
        return;
      } else if cmp < 0 {
        windowSize := closest - window;
        hi := j;
      } else {
        var keyLen := StrLen(d, closest) + 1;
        windowSize := windowSize - ((closest - window) + keyLen);
        window := closest + keyLen;
        KeysUpTo(keys, key, j);
        lo := j + 1;
      }
    }
    if lo < hi { KeyPosLess(keys, lo, hi); }
    var entry: int := CountKeys(d, keysStart, window, offs, keys, lo);
    assert entry < childCount;
    entry := if entry >= childCount then childCount - 1 else entry;
    PassedBetween(keys, key, lo);
    off := ChildOffset(d, entry, offs, keys);
  }

  lemma ShapeFacts(d: Buffer, offs: seq<nat>, keys: seq<CString>)
    requires NodeShape(d, offs, keys)
    ensures offs != [] ==> |offs| == |keys| + 1
    ensures forall i, j :: 0 <= i < j < |keys| ==> Less(keys[i], keys[j])
  {
  }

  lemma KeyPosAll(keys: seq<CString>)
    ensures KeyPos(keys, |keys|) == |Pool(keys)|
  {
    assert keys[..|keys|] == keys;
  }

  lemma NoneToPass(keys: seq<CString>, k: Buffer)
    requires keys == []
    ensures Passed(keys, k, false) == 0
  {
  }

  lemma PassedEqual(keys: seq<CString>, k: Buffer, j: nat)
    requires j < |keys| && keys[j] == k && forall x, y :: 0 <= x < y < |keys| ==> Less(keys[x], keys[y])
    ensures Passed(keys, k, false) == j + 1
  {
    hide Less;
    LessIrreflexive(k);
    forall i | 0 <= i < j ensures !Less(k, keys[i]) { LessAsymmetric(keys[i], k); }
    PassedIs(keys, k, false, j + 1);
  }

  lemma PassedBetween(keys: seq<CString>, k: Buffer, r: nat)
    requires r <= |keys| && (forall i :: 0 <= i < r ==> Less(keys[i], k)) && (r < |keys| ==> Less(k, keys[r]))
    ensures Passed(keys, k, false) == r
  {
    hide Less;
    forall i | 0 <= i < r ensures !Less(k, keys[i]) { LessAsymmetric(keys[i], k); }
    PassedIs(keys, k, false, r);
  }

  lemma KeysUpTo(keys: seq<CString>, k: Buffer, j: nat)
    requires j < |keys| && Less(keys[j], k) && forall x, y :: 0 <= x < y < |keys| ==> Less(keys[x], keys[y])
    ensures forall i :: 0 <= i <= j ==> Less(keys[i], k)
  {
    hide Less;
    forall i | 0 <= i <= j ensures Less(keys[i], k) {
      if i < j { LessTransitive(keys[i], keys[j], k); }
    }
  }

  // ---------------------------------------------------------------- leaves

  /** d is the data of a leaf. */
  ghost predicate LeafShape(d: Buffer, es: seq<Entry>) {
    && d == LeafData(es) && |es| < U16_LIMIT && Sorted(es)
    && forall i :: 0 <= i < |es| ==> Countable(es[i])
  }

  /** Where entry i begins in the leaf. */
  function EntryPos(es: seq<Entry>, i: nat): nat
    requires i <= |es|
  {
    3 + |EntriesBytes(es[..i])|
  }

  lemma EntryPosStep(es: seq<Entry>, i: nat)
    requires i < |es|
    ensures EntryPos(es, i + 1) == EntryPos(es, i) + |EntryBytes(es[i])|
    ensures EntryPos(es, 0) == 3
  {
    assert es[..i + 1][..i] == es[..i];
  }

  lemma {:induction false} EntriesFrom(es: seq<Entry>, i: nat)
    requires i < |es|
    ensures At(EntriesBytes(es), |EntriesBytes(es[..i])|, EntryBytes(es[i]))
    decreases |es|
  {
    hide EntryBytes;
    var n := |es| - 1;
    if i < n {
      EntriesFrom(es[..n], i);
      assert es[..n][..i] == es[..i];
      AtGrown(EntriesBytes(es[..n]), EntryBytes(es[n]), |EntriesBytes(es[..i])|, EntryBytes(es[i]));
    }
  }

  lemma LeafParts(d: Buffer, es: seq<Entry>)
    requires LeafShape(d, es)
    ensures |d| == EntryPos(es, |es|) && D16(d[1..3]) == |es| && At(d, 3, EntriesBytes(es))
  {
    hide EntriesBytes, Less, LeafData;
    assert es[..|es|] == es;
    LeafDataParts(es);
  }

  lemma LeafDataParts(es: seq<Entry>)
    requires |es| < U16_LIMIT
    ensures var d := LeafData(es); |d| == 3 + |EntriesBytes(es)| && D16(d[1..3]) == |es| && At(d, 3, EntriesBytes(es))
  {
    hide U16, D16, EntriesBytes;
    var d := LeafData(es);
    LeRead(|es|);
    AtParts(d, 0, [2] + Le16(|es|), EntriesBytes(es));
    AtParts(d, 0, [2], Le16(|es|));
    assert d[0..|d|] == d;
  }

  /** [node_type:u8] [entry_count:u16] and the entries, each behind those before it. */
  lemma LeafLayout(es: seq<Entry>, p: seq<nat>)
    requires |es| < 65536 && |p| == |es| + 1 && p[0] == 3
    requires forall i :: 0 <= i < |es| ==> p[i + 1] == p[i] + |EntryBytes(es[i])|
    ensures var d := LeafData(es);
      && |d| == p[|es|] && d[0] == 2 && D16(d[1..3]) == |es|
      && forall i :: 0 <= i < |es| ==> At(d, p[i], EntryBytes(es[i]))
  {
    hide EntryBytes, EntriesBytes, D16, U16;
    LeafDataParts(es);
    forall i | 0 <= i < |es| ensures At(LeafData(es), p[i], EntryBytes(es[i])) {
      EntriesFrom(es, i);
      EntriesEnd(es, p, i);
      AtInside(LeafData(es), 3, EntriesBytes(es), |EntriesBytes(es[..i])|, EntryBytes(es[i]));
    }
    EntriesEnd(es, p, |es|);
    assert es[..|es|] == es;
  }

  lemma {:induction false} EntriesEnd(es: seq<Entry>, p: seq<nat>, j: nat)
    requires |p| == |es| + 1 && j <= |es| && p[0] == 3
    requires forall i :: 0 <= i < |es| ==> p[i + 1] == p[i] + |EntryBytes(es[i])|
    ensures p[j] == EntryPos(es, j)
    decreases j
  {
    hide EntryPos;
    EntryPosZero(es);
    if j > 0 {
      EntriesEnd(es, p, j - 1);
      EntryPosStep(es, j - 1);
    }
  }

  /** Entry i as it lies in the leaf. */
  lemma EntryInLeaf(d: Buffer, es: seq<Entry>, i: nat)
    requires LeafShape(d, es) && i < |es|
    ensures EntryPos(es, i) < EntryPos(es, i + 1) <= |d|
    ensures ParseAt(d, EntryPos(es, i)) == Good(es[i], EntryPos(es, i + 1)) && CStr(d, EntryPos(es, i)) == es[i].key
  {
    hide EntriesBytes, Less, ParseAt, EntryBytes, LeafData;
    LeafParts(d, es);
    EntriesFrom(es, i);
    AtInside(d, 3, EntriesBytes(es), |EntriesBytes(es[..i])|, EntryBytes(es[i]));
    EntryBack(d, EntryPos(es, i), es[i]);
    EntryPosStep(es, i);
    KeyOfParsed(d, EntryPos(es, i));
  }

  lemma KeyOfParsed(d: Buffer, p: nat)
    requires p <= |d| && ParseAt(d, p).Good?
    ensures CStr(d, p) == ParseAt(d, p).entry.key
  {
  }

  // ---------------------------------------------------------------- searching any leaf data

  /** Where n entries from position p on begin, when all of them lie inside the data. */
  function EntryStarts(d: Buffer, p: nat, n: nat): (r: Option<seq<nat>>)
    requires p <= |d|
    ensures r.Some? ==> |r.value| == n && forall i :: 0 <= i < n ==> p <= r.value[i] < |d|
    decreases n
  {
    if n == 0 then Some([])
    else
      match ParseAt(d, p)
      case Bad => None
      case Good(_, end) =>
        match EntryStarts(d, end, n - 1)
        case None => None
        case Some(rest) => Some([p] + rest)
  }

  /** Starts already found, followed by the rest. */
  function Followed(done: seq<nat>, r: Option<seq<nat>>): Option<seq<nat>> {
    match r
    case None => None
    case Some(rest) => Some(done + rest)
  }

  lemma FollowedStep(d: Buffer, p: nat, n: nat, done: seq<nat>)
    requires n > 0 && p <= |d|
    ensures ParseAt(d, p).Bad? ==> EntryStarts(d, p, n) == None
    ensures ParseAt(d, p).Good? ==>
      Followed(done, EntryStarts(d, p, n)) == Followed(done + [p], EntryStarts(d, ParseAt(d, p).end, n - 1))
  {
    hide ParseAt;
    if ParseAt(d, p).Good? && EntryStarts(d, ParseAt(d, p).end, n - 1).Some? {
      var rest := EntryStarts(d, ParseAt(d, p).end, n - 1).value;
      assert done + ([p] + rest) == done + [p] + rest;
    }
  }

  /** The entry pointers of a leaf, or failure when an entry does not fit the data. */
  method EntryOffsets(d: Buffer) returns (ok: bool, offsets: seq<nat>)
    requires |d| >= 3
    ensures ok <==> EntryStarts(d, 3, D16(d[1..3])).Some?
    ensures ok ==> EntryStarts(d, 3, D16(d[1..3])) == Some(offsets)
    ensures |offsets| <= D16(d[1..3]) && (forall i :: 0 <= i < |offsets| ==> offsets[i] <= |d|)
    ensures offsets != [] ==> offsets[0] == 3
    ensures forall i :: 0 <= i < |offsets| - 1 ==>
      ParseAt(d, offsets[i]).Good? && ParseAt(d, offsets[i]).end == offsets[i + 1]
    ensures ok ==> |offsets| == D16(d[1..3])
    ensures offsets != [] ==> (ok <==> ParseAt(d, offsets[|offsets| - 1]).Good? && |offsets| == D16(d[1..3]))
  {
    hide ParseAt, D16, EntryStarts;
    var count := D16(d[1..3]);
    offsets := [];
    var current := 3;
    var i := 0;
    NothingFollows(d, current, count);
    while i < count
      invariant 0 <= i <= count && 3 <= current <= |d|
      invariant EntryStarts(d, 3, count) == Followed(offsets, EntryStarts(d, current, count - i))
      invariant |offsets| == i && Chained(d, offsets + [current]) && (offsets + [current])[0] == 3
    {
      FollowedStep(d, current, count - i, offsets);
      ChainedMeans(d, offsets, current);
      offsets := offsets + [current];
      var size, _ := ParseEntry(d, current, false);
      if size == 0 {
        return false, offsets;
      }
      current := current + size;
      i := i + 1;
    }
    NoneLeft(d, current, offsets);
    ChainedMeans(d, offsets, current);
    ok := true;
  }

  /** Each entry ends where the next one begins. */
  ghost predicate Chained(d: Buffer, starts: seq<nat>) {
    forall j :: 0 <= j < |starts| - 1 ==>
      starts[j] <= |d| && ParseAt(d, starts[j]).Good? && ParseAt(d, starts[j]).end == starts[j + 1]
  }

  lemma ChainedMeans(d: Buffer, starts: seq<nat>, last: nat)
    requires Chained(d, starts + [last]) && last <= |d|
    ensures forall j :: 0 <= j < |starts| ==> starts[j] <= |d| && ParseAt(d, starts[j]).Good?
    ensures forall j :: 0 <= j < |starts| - 1 ==> ParseAt(d, starts[j]).end == starts[j + 1]
    ensures starts != [] ==> ParseAt(d, starts[|starts| - 1]).end == last
    ensures ParseAt(d, last).Good? ==> Chained(d, starts + [last] + [ParseAt(d, last).end])
  {
    hide ParseAt;
    var u := starts + [last];
    forall j | 0 <= j < |starts| ensures starts[j] <= |d| && ParseAt(d, starts[j]).Good? && starts[j] == u[j] {
      assert u[j] == starts[j];
    }
    forall j | 0 <= j < |starts| - 1 ensures ParseAt(d, starts[j]).end == starts[j + 1] {
      assert u[j] == starts[j] && u[j + 1] == starts[j + 1];
    }
    if starts != [] { assert u[|starts| - 1] == starts[|starts| - 1] && u[|starts|] == last; }
  }

  lemma NothingFollows(d: Buffer, p: nat, n: nat)
    requires p <= |d|
    ensures Followed([], EntryStarts(d, p, n)) == EntryStarts(d, p, n)
  {
    hide EntryStarts;
    if EntryStarts(d, p, n).Some? { assert [] + EntryStarts(d, p, n).value == EntryStarts(d, p, n).value; }
  }

  lemma NoneLeft(d: Buffer, p: nat, done: seq<nat>)
    requires p <= |d|
    ensures Followed(done, EntryStarts(d, p, 0)) == Some(done)
  {
    assert done + [] == done;
  }

  lemma EntryPosZero(es: seq<Entry>)
    ensures EntryPos(es, 0) == 3
  {
  }

  /** The keys at the given starts. */
  function KeysAt(d: Buffer, starts: seq<nat>): (keys: seq<CString>)
    requires forall i :: 0 <= i < |starts| ==> starts[i] <= |d|
    ensures |keys| == |starts| && forall i :: 0 <= i < |keys| ==> keys[i] == CStr(d, starts[i])
  {
    seq(|starts|, i requires 0 <= i < |starts| => CStr(d, starts[i]))
  }

  ghost predicate Increasing(keys: seq<CString>) {
    forall i, j :: 0 <= i < j < |keys| ==> Less(keys[i], keys[j])
  }

  /** The lower-bound search over the entry pointers; it stays in bounds whatever the keys are, and finds the number of
      keys below the given one when they increase. */
  method LowerBound(d: Buffer, key: CString, offsets: seq<nat>) returns (window: nat)
    requires forall i :: 0 <= i < |offsets| ==> offsets[i] <= |d|
    ensures window <= |offsets|
    ensures Increasing(KeysAt(d, offsets)) ==> window == Passed(KeysAt(d, offsets), key, true)
  {
    hide Less, Passed, CStr;
    ghost var keys := KeysAt(d, offsets);
    window := 0;
    var windowSize := |offsets|;
    while windowSize > 0
      invariant 0 <= window <= window + windowSize <= |offsets|
      invariant Increasing(keys) ==> forall j :: 0 <= j < window ==> Less(keys[j], key)
      invariant Increasing(keys) && window + windowSize < |keys| ==> Less(key, keys[window + windowSize])
      decreases windowSize
    {
      var mid := window + windowSize / 2;
      var cmp := Compare(key, CStr(d, offsets[mid]));
      if cmp == 0 {
        if Increasing(keys) {
          LessIrreflexive(key);
          PassedIs(keys, key, true, mid);
        }
        return mid;
      } else if cmp < 0 {
        windowSize := mid - window;
      } else {
        windowSize := windowSize - ((mid - window) + 1);
        if Increasing(keys) { KeysUpTo(keys, key, mid); }
        window := mid + 1;
      }
    }
    if Increasing(keys) {
      if window < |keys| { LessAsymmetric(key, keys[window]); }
      PassedIs(keys, key, true, window);
    }
  }

  /** The key at an entry meets the search: it equals the searched key, or just has it as a prefix. */
  predicate Meets(entryKey: Buffer, key: Buffer, exact: bool) {
    if exact then entryKey == key else HasPrefix(entryKey, key)
  }

  lemma MeetsIff(entryKey: Buffer, key: Buffer)
    ensures Meets(entryKey, key, true) <==> entryKey == key
    ensures Meets(entryKey, key, false) <==> exists t: Buffer :: entryKey == key + t
  {
    PrefixIff(entryKey, key);
  }

  /** What search_leaf_node answers on any leaf data: nothing when an entry does not fit the data; otherwise only an
      entry that meets the search, and when the keys increase the first entry not below the key if that one does. */
  ghost predicate LeafAnswer(d: Buffer, key: CString, exact: bool, pos: Option<nat>)
    requires |d| >= 3
  {
    match EntryStarts(d, 3, D16(d[1..3]))
    case None => pos == None
    case Some(starts) =>
      var keys := KeysAt(d, starts);
      var r := Passed(keys, key, true);
      && (pos.Some? ==> pos.value in starts && Meets(CStr(d, pos.value), key, exact))
      && (Increasing(keys) ==> pos == if r < |keys| && Meets(keys[r], key, exact) then Some(starts[r]) else None)
  }

  /** search_leaf_node */
  method SearchLeaf(d: Buffer, key: CString, exact: bool) returns (pos: Option<nat>)
    requires |d| >= 3
    ensures LeafAnswer(d, key, exact, pos)
    ensures pos.Some? ==>
      && pos.value < |d|
      && if exact then CStr(d, pos.value) == key else exists t: Buffer :: CStr(d, pos.value) == key + t
  {
    hide Less, Passed, CStr, D16, HasPrefix, Increasing;
    var count := D16(d[1..3]);
    if count == 0 {
      return None;
    }
    var ok, offsets := EntryOffsets(d);
    if !ok {
      return None;
    }
    var window := LowerBound(d, key, offsets);
    if window < count {
      var entryKey := CStr(d, offsets[window]);
      if exact {
        if Compare(key, entryKey) == 0 {
          return Some(offsets[window]);
        }
      } else {
        PrefixIff(entryKey, key);
        if HasPrefix(entryKey, key) {
          return Some(offsets[window]);
        }
      }
    }
    pos := None;
  }

  // ---------------------------------------------------------------- searching a written leaf

  lemma LeafSorted(d: Buffer, es: seq<Entry>)
    requires LeafShape(d, es)
    ensures Sorted(es) && D16(d[1..3]) == |es| && |d| >= 3
  {
    LeafParts(d, es);
  }

  /** The starts in a written leaf are the positions of its entries. */
  lemma {:induction false} StartsInLeaf(d: Buffer, es: seq<Entry>, i: nat)
    requires LeafShape(d, es) && i <= |es|
    ensures EntryPos(es, i) <= |d|
    ensures EntryStarts(d, EntryPos(es, i), |es| - i) == Some(Positions(es, i))
    decreases |es| - i
  {
    hide LeafShape, EntryPos, ParseAt;
    if i < |es| {
      EntryInLeaf(d, es, i);
      StartsInLeaf(d, es, i + 1);
    } else {
      LeafParts(d, es);
    }
  }

  /** The positions of the entries from i on. */
  function Positions(es: seq<Entry>, i: nat): (r: seq<nat>)
    requires i <= |es|
    ensures |r| == |es| - i && forall j :: 0 <= j < |r| ==> r[j] == EntryPos(es, i + j)
    decreases |es| - i
  {
    if i == |es| then [] else [EntryPos(es, i)] + Positions(es, i + 1)
  }

  /** In a written leaf the search finds the first entry not below the key, when it meets the search. */
  lemma LeafAnswered(d: Buffer, es: seq<Entry>, key: CString, exact: bool, pos: Option<nat>)
    requires LeafShape(d, es) && |d| >= 3 && LeafAnswer(d, key, exact, pos)
    ensures var r := Rank(es, key);
      pos == if r < |es| && Meets(es[r].key, key, exact) then Some(EntryPos(es, r)) else None
  {
    hide LeafShape, EntryPos, Less, Rank, Passed, EntryStarts, Meets, D16, CStr;
    LeafSorted(d, es);
    EntryPosZero(es);
    StartsInLeaf(d, es, 0);
    var starts := Positions(es, 0);
    var keys := KeysAt(d, starts);
    forall i | 0 <= i < |es| ensures keys[i] == es[i].key { EntryInLeaf(d, es, i); }
    RankOfKeys(es, keys, key);
  }

  lemma RankOfKeys(es: seq<Entry>, keys: seq<CString>, k: Buffer)
    requires |keys| == |es| && forall i :: 0 <= i < |es| ==> keys[i] == es[i].key
    ensures Passed(keys, k, true) == Rank(es, k)
  {
    PassedIs(keys, k, true, Rank(es, k));
  }
}
