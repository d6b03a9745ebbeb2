// Ordinary dictionaries: with short entries no limit is met, and everything that is written can be read.

module Ordinary {
  import opened Bytes
  import opened Entries
  import opened Files
  import opened EntryFormat
  import opened IndexTrees
  import opened IndexLookups
  import opened IndexImages
  import opened IndexStores

  /** Compression adds no more than a thousandth and 64 bytes to what it cannot make smaller. */
  ghost predicate Thrifty(c: Codec) {
    forall x: Buffer :: |c.compress(x)| <= |x| + |x| / 1000 + 64
  }

  /** Entries take at most 120 bytes each. */
  ghost predicate Short(es: seq<Entry>) {
    forall i :: 0 <= i < |es| ==> |EntryBytes(es[i])| <= 120
  }

  lemma {:induction false} ItemsAtLeast(items: seq<KeyItem>)
    ensures |ItemsBytes(items)| >= 13 * |items|
  {
    if items != [] { ItemsAtLeast(items[1..]); }
  }

  lemma EntryAtLeast(e: Entry)
    ensures |EntryBytes(e)| >= |e.key| + 3 + 13 * |e.items|
  {
    ItemsAtLeast(e.items);
  }

  lemma {:induction false} EntriesAtMost(es: seq<Entry>)
    requires Short(es)
    ensures |EntriesBytes(es)| <= 120 * |es|
  {
    hide EntryBytes;
    if es != [] { EntriesAtMost(es[..|es| - 1]); }
  }

  lemma {:induction false} PoolAtMost(keys: seq<CString>)
    requires forall i :: 0 <= i < |keys| ==> |keys[i]| <= 117
    ensures |Pool(keys)| <= 118 * |keys|
  {
    if keys != [] { PoolAtMost(keys[..|keys| - 1]); }
  }

  lemma PartShort(es: seq<Entry>, m: nat, x: nat)
    requires 1 <= m < |es| && x <= m && Short(es)
    ensures Short(Part(es, m, x)) && Part(es, m, x) != [] && |LastKey(Part(es, m, x))| <= 117
  {
    hide EntryBytes, Cut, Near;
    PartAt(es, m, x);
    var part := Part(es, m, x);
    EntryAtLeast(part[|part| - 1]);
  }

  /** The data of one node. */
  lemma OrdinaryData(c: Codec, es: seq<Entry>, m: nat, lo: nat)
    requires 1 <= m <= 8192 && Short(es) && Thrifty(c)
    ensures var t := Plan(c, es, m, lo);
      |DataOf(t)| <= 1032203 && Legible(c, t) && Sized(c, DataOf(t)) && |Block(c, DataOf(t))| <= 1048584
    ensures forall i :: 0 <= i < |es| ==> Countable(es[i])
  {
    hide EntryBytes, EntriesBytes, Pool, Part, PlanTo, Words;
    forall i | 0 <= i < |es| ensures Countable(es[i]) { EntryAtLeast(es[i]); }
    if |es| <= m {
      EntriesAtMost(es);
    } else {
      PlanChild(c, es, m, lo, 0);
      var t := Plan(c, es, m, lo);
      hide Plan;
      forall i | 0 <= i < m ensures |t.keys[i]| <= 117 {
        PlanChild(c, es, m, lo, i);
        PartShort(es, m, i);
      }
      PoolAtMost(t.keys);
    }
  }

  /** An index over short entries fits, and takes at most twice 1 MiB and a little for each entry. */
  lemma {:induction false} OrdinaryFits(c: Codec, es: seq<Entry>, m: nat, lo: nat)
    requires 1 <= m <= 8192 && Short(es) && Thrifty(c) && es != []
    ensures var t := Plan(c, es, m, lo); Fits(c, t) && Size(c, t) <= (2 * |es| - 1) * 1048592
    decreases |es|, 1
  {
    hide DataOf, Part, PlanTo, Thrifty, Short, Legible, Block, Sized, Countable, Near, Cut;
    OrdinaryData(c, es, m, lo);
    if |es| > m {
      PlanChild(c, es, m, lo, 0);
      var t := Plan(c, es, m, lo);
      hide Plan, SizeTo;
      OrdinaryRow(c, es, m, lo, m + 1);
      PartAt(es, m, 0);
      forall i | 0 <= i <= m ensures Fits(c, t.children[i]) {
        PlanChild(c, es, m, lo, i);
        PartShort(es, m, i);
        OrdinaryFits(c, Part(es, m, i), m, lo + SizeTo(c, t.children, i));
      }
    }
  }

  lemma {:induction false} OrdinaryRow(c: Codec, es: seq<Entry>, m: nat, lo: nat, i: nat)
    requires 1 <= m <= 8192 && Short(es) && Thrifty(c) && m < |es| && i <= m + 1
    ensures var t := Plan(c, es, m, lo);
      t.INode? && |t.children| == m + 1 && SizeTo(c, t.children, i) <= (2 * Cut(|es|, m, i) - i) * 1048592
    decreases |es|, 0, i
  {
    hide DataOf, Part, PlanTo, Plan, Cut, Near, Size, Thrifty, Short, Fits;
    PlanChild(c, es, m, lo, 0);
    var t := Plan(c, es, m, lo);
    if i == 0 {
      PartAt(es, m, 0);
    } else {
      OrdinaryRow(c, es, m, lo, i - 1);
      PlanChild(c, es, m, lo, i - 1);
      PartAt(es, m, i - 1);
      PartShort(es, m, i - 1);
      OrdinaryFits(c, Part(es, m, i - 1), m, lo + SizeTo(c, t.children, i - 1));
    }
  }

  /** Every node on the way to any key is read. */
  lemma {:induction false} OrdinaryWay(c: Codec, es: seq<Entry>, m: nat, lo: nat, k: Buffer)
    requires 1 <= m <= 8192 && Short(es) && Thrifty(c)
    ensures WayLegible(c, Plan(c, es, m, lo), k)
    decreases |es|
  {
    hide DataOf, Part, PlanTo, Passed, Thrifty, Short, Legible;
    if |es| > m {
      PlanChild(c, es, m, lo, 0);
      var t := Plan(c, es, m, lo);
      hide Plan;
      var i := Passed(t.keys, k, false);
      PlanChild(c, es, m, lo, i);
      PartShort(es, m, i);
      OrdinaryData(c, Part(es, m, i), m, lo + SizeTo(c, t.children, i));
      OrdinaryWay(c, Part(es, m, i), m, lo + SizeTo(c, t.children, i), k);
    }
  }

  /** Every leaf is read. */
  lemma {:induction false} OrdinaryLeaves(c: Codec, es: seq<Entry>, m: nat, lo: nat, j: nat)
    requires 1 <= m <= 8192 && Short(es) && Thrifty(c) && j < |Leaves(Plan(c, es, m, lo))|
    ensures Legible(c, Leaves(Plan(c, es, m, lo))[j])
    decreases |es|, 1
  {
    hide DataOf, Part, PlanTo, LeavesTo, Thrifty, Short, Legible;
    OrdinaryData(c, es, m, lo);
    if |es| > m {
      PlanChild(c, es, m, lo, 0);
      hide Plan;
      OrdinaryLeavesTo(c, es, m, lo, m + 1, j);
    }
  }

  lemma {:induction false} OrdinaryLeavesTo(c: Codec, es: seq<Entry>, m: nat, lo: nat, i: nat, j: nat)
    requires 1 <= m <= 8192 && Short(es) && Thrifty(c) && m < |es| && i <= m + 1
    requires var t := Plan(c, es, m, lo); t.INode? && |t.children| == m + 1 && j < |LeavesTo(t.children, i)|
    ensures Legible(c, LeavesTo(Plan(c, es, m, lo).children, i)[j])
    decreases |es|, 0, i
  {
    hide DataOf, Part, PlanTo, Plan, Leaves, Legible, Thrifty, Short;
    var t := Plan(c, es, m, lo);
    var n := |LeavesTo(t.children, i - 1)|;
    if j < n {
      OrdinaryLeavesTo(c, es, m, lo, i - 1, j);
    } else {
      PlanChild(c, es, m, lo, i - 1);
      PartShort(es, m, i - 1);
      OrdinaryLeaves(c, Part(es, m, i - 1), m, lo + SizeTo(c, t.children, i - 1), j - n);
    }
  }

  /** So the index of short entries is written, its database opens, no lookup is an error, and no leaf is left out. */
  lemma OrdinaryIndex(c: Codec, es: seq<Entry>, lo: nat)
    requires forall x: Buffer :: |c.compress(x)| <= |x| + |x| / 1000 + 64
    requires forall e :: e in es ==> |EntryBytes(e)| <= 120
    requires 0 < |es| < 0x1_0000_0000 && lo < 0x7000_0000_0000_0000
    ensures var t := Plan(c, es, MaxElements(|es|), lo);
      && Fits(c, t) && lo + Size(c, t) < 0x8000_0000_0000_0000 && Legible(c, t)
      && (forall k :: WayLegible(c, t, k)) && FirstDark(c, Leaves(t), 0) == |Leaves(t)|
  {
    hide Plan, MaxElements, Fits, Size, Legible, WayLegible, FirstDark, Leaves, EntryBytes;
    assert Thrifty(c) && Short(es);
    hide Thrifty, Short;
    var m := MaxElements(|es|);
    CapacityIs(|es|);
    OrdinaryFits(c, es, m, lo);
    OrdinaryData(c, es, m, lo);
    forall k ensures WayLegible(c, Plan(c, es, m, lo), k) { OrdinaryWay(c, es, m, lo, k); }
    var t := Plan(c, es, m, lo);
    forall j | 0 <= j < |Leaves(t)| ensures Legible(c, Leaves(t)[j]) { OrdinaryLeaves(c, es, m, lo, j); }
  }

  // ---------------------------------------------------------------- a codec for ordinary dictionaries

  /** Stretches of 1000 bytes behind a 1, and the rest behind a 0 and its length. */
  function Storing(x: Buffer): (y: Buffer)
    ensures 3 <= |y| <= |x| + |x| / 1000 + 3
    decreases |x|
  {
    if |x| < 1000 then [0, |x| / 256, |x| % 256] + x else [1] + x[..1000] + Storing(x[1000..])
  }

  function Unstoring(y: Buffer): Option<Buffer> {
    if |y| < 3 || y[0] > 1 then None
    else if y[0] == 0 then
      if |y| == 3 + 256 * (y[1] as int) + (y[2] as int) then Some(y[3..]) else None
    else if |y| < 1001 then None
    else
      match Unstoring(y[1001..])
      case None => None
      case Some(x) => Some(y[1..1001] + x)
  }

  function StoringCodec(): Codec {
    Codec(Storing, Unstoring)
  }

  lemma {:induction false} UnstoringBack(x: Buffer)
    ensures Unstoring(Storing(x)) == Some(x)
    decreases |x|
  {
    if |x| >= 1000 {
      UnstoringBack(x[1000..]);
      assert Storing(x)[1001..] == Storing(x[1000..]) && Storing(x)[1..1001] == x[..1000];
      assert x[..1000] + x[1000..] == x;
    }
  }

  lemma {:induction false} UnstoringCut(x: Buffer, n: nat)
    requires n < |Storing(x)|
    ensures Unstoring(Storing(x)[..n]) == None
    decreases |x|
  {
    var y := Storing(x)[..n];
    if |x| >= 1000 && n >= 1001 {
      UnstoringCut(x[1000..], n - 1001);
      assert y[1001..] == Storing(x[1000..])[..n - 1001];
    }
  }

  /** All that is taken for granted of a codec, together with the bound on what it adds, can be had at once. */
  lemma StoringMeets()
    ensures Lawful(StoringCodec()) && Terminated(StoringCodec())
    ensures forall x: Buffer :: |StoringCodec().compress(x)| <= |x| + |x| / 1000 + 64
  {
    forall x: Buffer
      ensures StoringCodec().compress(x) != []
      ensures StoringCodec().decompress(StoringCodec().compress(x)) == Some(x)
    {
      UnstoringBack(x);
    }
    forall x: Buffer, n: nat | n < |StoringCodec().compress(x)|
      ensures StoringCodec().decompress(StoringCodec().compress(x)[..n]) == None
    {
      UnstoringCut(x, n);
    }
  }
}
