// The byte form of an index entry: [folded_key\0] [item_count:u16] [items...],
// an item being [original_key\0] [address:u64] [data_size:u32].

module EntryFormat {
  import opened Bytes
  import opened Entries
  import opened Files

  function ItemBytes(i: KeyItem): (b: Buffer)
    ensures |b| == |i.originalKey| + 13
  {
    i.originalKey + [0] + (U64(i.address) + U32(i.size))
  }

  function ItemsBytes(items: seq<KeyItem>): Buffer {
    if items == [] then [] else ItemBytes(items[0]) + ItemsBytes(items[1..])
  }

  function EntryBytes(e: Entry): (b: Buffer)
    ensures |b| >= 3
  {
    e.key + [0] + (Le16(|e.items|) + ItemsBytes(e.items))
  }

  /** The item count fits its field. */
  predicate Countable(e: Entry) {
    |e.items| < U16_LIMIT
  }

  // ---------------------------------------------------------------- items one behind the other

  lemma ItemBytesIs(i: KeyItem)
    ensures ItemBytes(i) == i.originalKey + [0] + (U64(i.address) + U32(i.size))
  {
  }

  lemma {:induction false} ItemsBytesPush(items: seq<KeyItem>, i: KeyItem)
    ensures ItemsBytes(items + [i]) == ItemsBytes(items) + ItemBytes(i)
  {
    if items == [] {
      assert items + [i] == [i];
      assert ItemsBytes([i]) == ItemBytes(i) + ItemsBytes([]);
    } else {
      ItemsBytesPush(items[1..], i);
      assert (items + [i])[1..] == items[1..] + [i];
      assert ItemBytes(items[0]) + (ItemsBytes(items[1..]) + ItemBytes(i)) ==
             ItemBytes(items[0]) + ItemsBytes(items[1..]) + ItemBytes(i);
    }
  }

  // ---------------------------------------------------------------- which byte is where

  /** [original_key\0] [address:u64] [data_size:u32] */
  lemma ItemLayout(i: KeyItem)
    ensures var b, n := ItemBytes(i), |i.originalKey|;
      && |b| == n + 13 && b[..n] == i.originalKey && b[n] == 0
      && D64(b[n + 1..n + 9]) == i.address && D32(b[n + 9..n + 13]) == i.size
  {
    hide U64, U32, D64, D32;
    var b, n := ItemBytes(i), |i.originalKey|;
    assert b[n + 1..n + 9] == U64(i.address) && b[n + 9..n + 13] == U32(i.size);
    RoundTrip64(i.address);
    RoundTrip32(i.size);
  }

  /** [folded_key\0] [item_count:u16] and the items, each behind those before it. */
  lemma EntryLayout(e: Entry, p: seq<nat>, j: nat)
    requires Countable(e) && |p| == |e.items| + 1 && p[0] == |e.key| + 3
    requires forall i :: 0 <= i < |e.items| ==> p[i + 1] == p[i] + |e.items[i].originalKey| + 13
    ensures var b, n := EntryBytes(e), |e.key|;
      && |b| == p[|e.items|] && b[..n] == e.key && b[n] == 0 && D16(b[n + 1..n + 3]) == |e.items|
      && (j < |e.items| ==> At(b, p[j], ItemBytes(e.items[j])))
  {
    hide U16, D16, ItemBytes, ItemsBytes;
    var b, n := EntryBytes(e), |e.key|;
    assert b[n + 1..n + 3] == Le16(|e.items|);
    LeRead(|e.items|);
    ItemsEnd(e.items, p, |e.items|);
    assert e.items[..|e.items|] == e.items;
    if j < |e.items| {
      ItemsEnd(e.items, p, j);
      ItemAt(e.items, j);
      var head := e.key + [0] + Le16(|e.items|);
      assert b == head + ItemsBytes(e.items);
      AtInside(b, |head|, ItemsBytes(e.items), |ItemsBytes(e.items[..j])|, ItemBytes(e.items[j]));
    }
  }

  lemma {:induction false} ItemsEnd(items: seq<KeyItem>, p: seq<nat>, j: nat)
    requires |p| == |items| + 1 && j <= |items|
    requires forall i :: 0 <= i < |items| ==> p[i + 1] == p[i] + |items[i].originalKey| + 13
    ensures p[j] == p[0] + |ItemsBytes(items[..j])|
    decreases j
  {
    if j > 0 {
      ItemsEnd(items, p, j - 1);
      ItemsBytesPush(items[..j - 1], items[j - 1]);
      assert items[..j] == items[..j - 1] + [items[j - 1]];
    }
  }

  lemma ItemAt(items: seq<KeyItem>, j: nat)
    requires j < |items|
    ensures At(ItemsBytes(items), |ItemsBytes(items[..j])|, ItemBytes(items[j]))
  {
    hide ItemBytes;
    ItemsBytesPush(items[..j], items[j]);
    ItemsSplit(items[..j + 1], items[j + 1..]);
    assert items[..j + 1] == items[..j] + [items[j]] && items == items[..j + 1] + items[j + 1..];
    AtGrown(ItemsBytes(items[..j + 1]), ItemsBytes(items[j + 1..]), |ItemsBytes(items[..j])|, ItemBytes(items[j]));
  }

  lemma ItemsFirst(items: seq<KeyItem>)
    requires items != []
    ensures ItemsBytes(items) == ItemBytes(items[0]) + ItemsBytes(items[1..])
  {
  }

  lemma Regroup(x: Buffer, y: Buffer, z: Buffer)
    ensures x + (y + z) == x + y + z
  {
  }

  lemma {:induction false} ItemsSplit(a: seq<KeyItem>, b: seq<KeyItem>)
    ensures ItemsBytes(a + b) == ItemsBytes(a) + ItemsBytes(b)
  {
    hide ItemBytes;
    if a == [] {
      assert a + b == b;
    } else {
      hide ItemsBytes;
      ItemsSplit(a[1..], b);
      ItemsFirst(a);
      ItemsFirst(a + b);
      assert (a + b)[1..] == a[1..] + b;
      Regroup(ItemBytes(a[0]), ItemsBytes(a[1..]), ItemsBytes(b));
    }
  }

  // ---------------------------------------------------------------- writing an entry

  /** serialize_index_entry_into: append the entry to the buffer; 0 when it has too many items. */
  method SerializeInto(entry: Entry, buffer: Buffer) returns (n: nat, out: Buffer)
    ensures n == if Countable(entry) then |EntryBytes(entry)| else 0
    ensures out == if Countable(entry) then buffer + EntryBytes(entry) else buffer
  {
    hide ItemBytes;
    if |entry.items| > 65535 {
      return 0, buffer;
    }
    var keyLen := |entry.key| + 1;
    var itemsSize := 0;
    var i := 0;
    while i < |entry.items|
      invariant 0 <= i <= |entry.items|
      invariant itemsSize == |ItemsBytes(entry.items[..i])|
    {
      ItemsBytesPush(entry.items[..i], entry.items[i]);
      assert entry.items[..i + 1] == entry.items[..i] + [entry.items[i]];
      itemsSize := itemsSize + (|entry.items[i].originalKey| + 1) + 8 + 4;
      i := i + 1;
    }
    assert entry.items[..i] == entry.items;
    n := keyLen + 2 + itemsSize;

    ghost var head := buffer + (entry.key + [0]);
    out := buffer + (entry.key + [0]) + Le16(|entry.items|);
    i := 0;
    while i < |entry.items|
      invariant 0 <= i <= |entry.items|
      invariant out == head + Le16(|entry.items|) + ItemsBytes(entry.items[..i])
    {
      var item := entry.items[i];
      ItemBytesIs(item);
      ItemsBytesPush(entry.items[..i], item);
      assert entry.items[..i + 1] == entry.items[..i] + [item];
      assert head + Le16(|entry.items|) + (ItemsBytes(entry.items[..i]) + ItemBytes(item)) == out + ItemBytes(item);
      out := out + (item.originalKey + [0] + (U64(item.address) + U32(item.size)));
      i := i + 1;
    }
    assert entry.items[..i] == entry.items;
    assert out == buffer + EntryBytes(entry);
  }

  // ---------------------------------------------------------------- reading

  datatype ParsedItems = BadItems | GoodItems(items: seq<KeyItem>, end: nat)

  datatype Parsed = Bad | Good(entry: Entry, end: nat)

  /** The item at p, when it lies inside the data. */
  predicate ItemFits(d: Buffer, p: nat) {
    p <= |d| && p + (StrLen(d, p) + 1) + 8 + 4 <= |d|
  }

  function ItemAtByte(d: Buffer, p: nat): KeyItem
    requires ItemFits(d, p)
  {
    var q := p + StrLen(d, p) + 1;
    KeyItem(CStr(d, p), D64(d[q..q + 8]), D32(d[q + 8..q + 12]))
  }

  /** n items from position p on. */
  function ParseItems(d: Buffer, p: nat, n: nat): (r: ParsedItems)
    requires p <= |d|
    ensures r.GoodItems? ==> p <= r.end <= |d| && |r.items| == n
    decreases n
  {
    if n == 0 then GoodItems([], p)
    else if !ItemFits(d, p) then BadItems
    else
      match ParseItems(d, p + StrLen(d, p) + 13, n - 1)
      case BadItems => BadItems
      case GoodItems(items, end) => GoodItems([ItemAtByte(d, p)] + items, end)
  }

  /** What parse_entry makes of the bytes from position p on, whatever they are. */
  function ParseAt(d: Buffer, p: nat): (r: Parsed)
    requires p <= |d|
    ensures r.Good? ==> p + 3 <= r.end <= |d|
  {
    var q := p + StrLen(d, p) + 1;
    if q + 2 > |d| then Bad
    else
      match ParseItems(d, q + 2, D16(d[q..q + 2]))
      case BadItems => Bad
      case GoodItems(items, end) => Good(Entry(CStr(d, p), items), end)
  }

  /** Items already read, followed by the rest. */
  function Prefixed(done: seq<KeyItem>, r: ParsedItems): ParsedItems {
    match r
    case BadItems => BadItems
    case GoodItems(items, end) => GoodItems(done + items, end)
  }

  /** Moving one item from what is still to be read to what has been read. */
  lemma ParseItemsStep(d: Buffer, p: nat, n: nat, done: seq<KeyItem>)
    requires n > 0 && ItemFits(d, p)
    ensures Prefixed(done, ParseItems(d, p, n))
            == Prefixed(done + [ItemAtByte(d, p)], ParseItems(d, p + StrLen(d, p) + 13, n - 1))
  {
    var r := ParseItems(d, p + StrLen(d, p) + 13, n - 1);
    if r.GoodItems? {
      assert done + ([ItemAtByte(d, p)] + r.items) == done + [ItemAtByte(d, p)] + r.items;
    }
  }

  lemma ParseItemsNone(d: Buffer, p: nat, done: seq<KeyItem>)
    requires p <= |d|
    ensures Prefixed(done, ParseItems(d, p, 0)) == GoodItems(done, p)
  {
    assert done + [] == done;
  }

  lemma ParseItemsStops(d: Buffer, p: nat, n: nat)
    requires n > 0 && p <= |d| && !ItemFits(d, p)
    ensures ParseItems(d, p, n).BadItems?
  {
  }

  /** parse_entry: the entry and its size, or with `wanted` off just the size; 0 when it does not fit the data. */
  method ParseEntry(d: Buffer, p: nat, wanted: bool) returns (size: nat, entry: Option<Entry>)
    requires p <= |d|
    ensures size == (match ParseAt(d, p) case Bad => 0 case Good(_, end) => end - p)
    ensures entry == if !wanted then None else match ParseAt(d, p) case Bad => None case Good(e, _) => Some(e)
  {
    hide StrLen, D16, D32, D64, CStr, ParseItems;
    var foldedLen := StrLen(d, p) + 1;
    if p + foldedLen > |d| {
      return 0, None;
    }
    var ptr := p + foldedLen;
    if ptr + 2 > |d| {
      return 0, None;
    }
    var itemCount := D16(d[ptr..ptr + 2]);
    ptr := ptr + 2;
    ghost var first := ptr;
    var items := [];
    ghost var got: seq<KeyItem> := [];
    var i := 0;
    while i < itemCount
      invariant 0 <= i <= itemCount && first <= ptr <= |d|
      invariant ParseItems(d, first, itemCount) == Prefixed(got, ParseItems(d, ptr, itemCount - i))
      invariant wanted ==> items == got
    {
      var originalLen := StrLen(d, ptr) + 1;
      if ptr + originalLen + 8 + 4 > |d| {
        ParseItemsStops(d, ptr, itemCount - i);
        return 0, None;
      }
      ParseItemsStep(d, ptr, itemCount - i, got);
      got := got + [ItemAtByte(d, ptr)];
      if wanted {
        var q := ptr + originalLen;
        items := items + [KeyItem(CStr(d, ptr), D64(d[q..q + 8]), D32(d[q + 8..q + 12]))];
      }
      ptr := ptr + originalLen + 8 + 4;
      i := i + 1;
    }
    ParseItemsNone(d, ptr, got);
    size := ptr - p;
    entry := if wanted then Some(Entry(CStr(d, p), items)) else None;
  }

  // ---------------------------------------------------------------- there and back

  lemma ItemBack(d: Buffer, p: nat, i: KeyItem)
    requires At(d, p, ItemBytes(i))
    ensures ItemFits(d, p) && StrLen(d, p) == |i.originalKey| && ItemAtByte(d, p) == i
  {
    var s := i.originalKey + [0];
    AtParts(d, p, s, U64(i.address) + U32(i.size));
    AtParts(d, p + |s|, U64(i.address), U32(i.size));
    CStrStored(d, p, i.originalKey);
    RoundTrip64(i.address);
    RoundTrip32(i.size);
  }

  lemma {:induction false} ItemsBack(d: Buffer, p: nat, items: seq<KeyItem>)
    requires At(d, p, ItemsBytes(items))
    ensures ParseItems(d, p, |items|) == GoodItems(items, p + |ItemsBytes(items)|)
    decreases |items|
  {
    hide ItemBytes, StrLen, ItemAtByte;
    if items != [] {
      var first, rest := ItemBytes(items[0]), ItemsBytes(items[1..]);
      ItemsFirst(items);
      hide ItemsBytes, At;
      AtParts(d, p, first, rest);
      ItemBack(d, p, items[0]);
      ItemsBack(d, p + |first|, items[1..]);
      assert [items[0]] + items[1..] == items;
    }
  }

  /** Parsing undoes serialising, whatever stands before and behind the entry. */
  lemma EntryBack(d: Buffer, p: nat, e: Entry)
    requires Countable(e) && At(d, p, EntryBytes(e))
    ensures ParseAt(d, p) == Good(e, p + |EntryBytes(e)|)
  {
    hide U16, D16, ItemsBytes, ParseItems, StrLen;
    var s, n, rest := e.key + [0], Le16(|e.items|), ItemsBytes(e.items);
    AtParts(d, p, s, n + rest);
    AtParts(d, p + |s|, n, rest);
    CStrStored(d, p, e.key);
    LeRead(|e.items|);
    ItemsBack(d, p + |s| + 2, e.items);
  }

  lemma StringForth(d: Buffer, p: nat)
    requires p <= |d| && p + StrLen(d, p) < |d|
    ensures At(d, p, CStr(d, p) + [0])
  {
    assert At(d, p, CStr(d, p)) && At(d, p + StrLen(d, p), [0]);
    AtParts(d, p, CStr(d, p), [0]);
  }

  lemma AtNothing(d: Buffer, p: nat)
    requires p <= |d|
    ensures At(d, p, [])
  {
  }

  lemma WordForth(d: Buffer, q: nat)
    requires q + 2 <= |d|
    ensures At(d, q, d[q..q + 2])
  {
  }

  lemma NumbersForth(d: Buffer, q: nat)
    requires q + 12 <= |d|
    ensures At(d, q, U64(D64(d[q..q + 8])) + U32(D32(d[q + 8..q + 12])))
  {
    hide U64, D64, U32, D32;
    Stored64(d[q..q + 8]);
    Stored32(d[q + 8..q + 12]);
    AtParts(d, q, d[q..q + 8], d[q + 8..q + 12]);
  }

  /** The converse: bytes that parse are the serialised form of what they parse to. */
  lemma {:induction false} ItemsForth(d: Buffer, p: nat, n: nat)
    requires p <= |d| && ParseItems(d, p, n).GoodItems?
    ensures var r := ParseItems(d, p, n); At(d, p, ItemsBytes(r.items)) && r.end == p + |ItemsBytes(r.items)|
    decreases n
  {
    hide U64, U32, D64, D32, StrLen, At;
    if n == 0 {
      assert At(d, p, []) by { AtNothing(d, p); }
    } else {
      var i, q := ItemAtByte(d, p), p + StrLen(d, p) + 1;
      ItemsForth(d, q + 12, n - 1);
      NumbersForth(d, q);
      StringForth(d, p);
      AtParts(d, p, i.originalKey + [0], U64(i.address) + U32(i.size));
      var r := ParseItems(d, p, n);
      assert r.items[1..] == ParseItems(d, q + 12, n - 1).items;
      AtParts(d, p, ItemBytes(i), ItemsBytes(r.items[1..]));
    }
  }

  lemma Stored16(b: Buffer)
    requires |b| == 2
    ensures U16(D16(b)) == b
  {
  }

  lemma Stored32(b: Buffer)
    requires |b| == 4
    ensures U32(D32(b)) == b
  {
    hide U16, D16;
    Stored16(b[..2]);
    Stored16(b[2..]);
    HalfWords(D16(b[..2]), D16(b[2..]));
    assert b[..2] + b[2..] == b;
  }

  lemma HalfWords(lo: nat, hi: nat)
    requires lo < U16_LIMIT && hi < U16_LIMIT
    ensures (lo + U16_LIMIT * hi) % U16_LIMIT == lo && (lo + U16_LIMIT * hi) / U16_LIMIT == hi
  {
  }

  lemma DoubleWords(lo: nat, hi: nat)
    requires lo < U32_LIMIT && hi < U32_LIMIT
    ensures (lo + U32_LIMIT * hi) % U32_LIMIT == lo && (lo + U32_LIMIT * hi) / U32_LIMIT == hi
  {
  }

  lemma Stored64(b: Buffer)
    requires |b| == 8
    ensures U64(D64(b)) == b
  {
    hide U32, D32;
    Stored32(b[..4]);
    Stored32(b[4..]);
    DoubleWords(D32(b[..4]), D32(b[4..]));
    assert b[..4] + b[4..] == b;
  }

  lemma EntryForth(d: Buffer, p: nat)
    requires p <= |d| && ParseAt(d, p).Good?
    ensures var r := ParseAt(d, p);
      Countable(r.entry) && At(d, p, EntryBytes(r.entry)) && r.end == p + |EntryBytes(r.entry)|
  {
    hide StrLen, D16, U16, ParseItems, ItemsBytes, At;
    var r, q := ParseAt(d, p), p + StrLen(d, p) + 1;
    var n := D16(d[q..q + 2]);
    ItemsForth(d, q + 2, n);
    Stored16(d[q..q + 2]);
    assert d[q..q + 2] == Le16(n);
    assert At(d, q, d[q..q + 2]) by { WordForth(d, q); }
    StringForth(d, p);
    AtParts(d, q, Le16(n), ItemsBytes(r.entry.items));
    AtParts(d, p, r.entry.key + [0], Le16(n) + ItemsBytes(r.entry.items));
  }
}
