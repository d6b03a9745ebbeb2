// Index entries and ordered entry lists.

module Entries {
  import opened Bytes

  datatype KeyItem = KeyItem(originalKey: CString, address: u64, size: u32)

  /** One folded key with the items that share it. */
  datatype Entry = Entry(key: CString, items: seq<KeyItem>)

  // ---------------------------------------------------------------- ordered lists

  ghost predicate Sorted(s: seq<Entry>) {
    forall i, j :: 0 <= i < j < |s| ==> Less(s[i].key, s[j].key)
  }

  /** Sorted is strcmp order: as long as two keys agree the later one goes on, and the earlier one has ended or goes on
      with a byte that is not greater. */
  lemma SortedMeans(s: seq<Entry>)
    requires Sorted(s)
    ensures forall i, j, k ::
      0 <= i < j < |s| && 0 <= k <= |s[i].key| && k <= |s[j].key| && s[i].key[..k] == s[j].key[..k]
      ==> k < |s[j].key| && (k < |s[i].key| ==> s[i].key[k] <= s[j].key[k])
  {
    hide Less;
    forall i, j, k | 0 <= i < j < |s| && 0 <= k <= |s[i].key| && k <= |s[j].key| && s[i].key[..k] == s[j].key[..k]
      ensures k < |s[j].key| && (k < |s[i].key| ==> s[i].key[k] <= s[j].key[k])
    {
      LessAgrees(s[i].key, s[j].key, k);
    }
  }

  /** The number of leading entries below k; in a sorted list, of all entries below k. */
  function Rank(s: seq<Entry>, k: Buffer): (r: nat)
    ensures r <= |s|
    ensures forall i :: 0 <= i < r ==> Less(s[i].key, k)
    ensures r < |s| ==> !Less(s[r].key, k)
  {
    RankFrom(s, k, 0)
  }

  function RankFrom(s: seq<Entry>, k: Buffer, i: nat): (r: nat)
    requires i <= |s|
    ensures i <= r <= |s|
    ensures forall j :: i <= j < r ==> Less(s[j].key, k)
    ensures r < |s| ==> !Less(s[r].key, k)
    decreases |s| - i
  {
    if i == |s| || !Less(s[i].key, k) then i else RankFrom(s, k, i + 1)
  }

  predicate Has(s: seq<Entry>, k: Buffer) {
    var r := Rank(s, k);
    r < |s| && s[r].key == k
  }

  /** The ordered-map view of an update. */
  function Put(s: seq<Entry>, e: Entry): seq<Entry> {
    var r := Rank(s, e.key);
    if Has(s, e.key) then s[r := e] else s[..r] + [e] + s[r..]
  }

  function Without(s: seq<Entry>, i: nat): seq<Entry>
    requires i < |s|
  {
    s[..i] + s[i + 1..]
  }

  lemma RankIs(s: seq<Entry>, k: Buffer, r: nat)
    requires r <= |s|
    requires forall i :: 0 <= i < r ==> Less(s[i].key, k)
    requires r < |s| ==> !Less(s[r].key, k)
    ensures Rank(s, k) == r
  {
  }

  /** Membership in a sorted list is decided at the rank. */
  lemma HasIff(s: seq<Entry>, k: Buffer)
    requires Sorted(s)
    ensures Has(s, k) <==> exists i :: 0 <= i < |s| && s[i].key == k
    ensures forall i :: 0 <= i < |s| && s[i].key == k ==> i == Rank(s, k)
  {
    forall i | 0 <= i < |s| && s[i].key == k ensures i == Rank(s, k) {
      var r := Rank(s, k);
      LessIrreflexive(k);
    }
  }

  /** Only the middle part decides when its neighbours bracket the key. */
  lemma RankMiddle(a: seq<Entry>, b: seq<Entry>, c: seq<Entry>, k: Buffer)
    requires forall i :: 0 <= i < |a| ==> Less(a[i].key, k)
    requires c != [] ==> Less(k, c[0].key)
    ensures Rank(a + b + c, k) == |a| + Rank(b, k)
    ensures Has(a + b + c, k) == Has(b, k)
  {
    var s := a + b + c;
    if c != [] { LessAsymmetric(k, c[0].key); }
    RankIs(s, k, |a| + Rank(b, k));
  }

  /** An update inside the bracketed middle part. */
  lemma PutMiddle(a: seq<Entry>, b: seq<Entry>, c: seq<Entry>, e: Entry)
    requires forall i :: 0 <= i < |a| ==> Less(a[i].key, e.key)
    requires c != [] ==> Less(e.key, c[0].key)
    ensures Put(a + b + c, e) == a + Put(b, e) + c
    ensures Has(a + b + c, e.key) == Has(b, e.key)
    ensures Rank(a + b + c, e.key) == |a| + Rank(b, e.key)
  {
    hide Less, Rank;
    RankMiddle(a, b, c, e.key);
    var s, r := a + b + c, Rank(b, e.key);
    if Has(b, e.key) { MiddleUpdate(a, b, c, r, e); } else { MiddleInsert(a, b, c, r, e); }
  }

  lemma MiddleUpdate(a: seq<Entry>, b: seq<Entry>, c: seq<Entry>, r: nat, e: Entry)
    requires r < |b|
    ensures (a + b + c)[|a| + r := e] == a + b[r := e] + c
  {
  }

  lemma MiddleInsert(a: seq<Entry>, b: seq<Entry>, c: seq<Entry>, r: nat, e: Entry)
    requires r <= |b|
    ensures var s := a + b + c; s[..|a| + r] + [e] + s[|a| + r..] == a + (b[..r] + [e] + b[r..]) + c
  {
    var s := a + b + c;
    assert s[..|a| + r] == a + b[..r];
    assert s[|a| + r..] == b[r..] + c;
  }

  /** In a sorted list everything from the rank on, other than the key itself, is above it. */
  lemma RankAbove(s: seq<Entry>, k: Buffer, i: nat)
    requires Sorted(s) && Rank(s, k) <= i < |s| && s[i].key != k
    ensures Less(k, s[i].key)
  {
    var r := Rank(s, k);
    LessTotal(k, s[i].key);
    if Less(s[i].key, k) && r < i { LessTransitive(s[r].key, s[i].key, k); }
  }

  /** Updating keeps the list sorted and stores the entry at its rank. */
  lemma PutSorted(s: seq<Entry>, e: Entry)
    requires Sorted(s)
    ensures Sorted(Put(s, e))
    ensures Rank(Put(s, e), e.key) == Rank(s, e.key)
    ensures Has(Put(s, e), e.key) && Put(s, e)[Rank(s, e.key)] == e
  {
    var r := Rank(s, e.key);
    LessIrreflexive(e.key);
    HasIff(s, e.key);
    forall i | r <= i < |s| && s[i].key != e.key ensures Less(e.key, s[i].key) {
      RankAbove(s, e.key, i);
    }
    RankIs(Put(s, e), e.key, r);
  }

  /** Updating leaves every other key alone. */
  lemma PutMembers(s: seq<Entry>, e: Entry, x: Entry)
    requires Sorted(s)
    ensures x in Put(s, e) <==> x == e || (x in s && x.key != e.key)
  {
    var r, t := Rank(s, e.key), Put(s, e);
    HasIff(s, e.key);
    assert t[r] == e;
    if x in s && x.key != e.key {
      var i :| 0 <= i < |s| && s[i] == x;
      assert x == if Has(s, e.key) || i < r then t[i] else t[i + 1];
    }
    if x in t && x != e {
      var i :| 0 <= i < |t| && t[i] == x;
      var j := if Has(s, e.key) || i < r then i else i - 1;
      assert s[j] == x;
    }
  }

  /** Taking out entry i takes out that entry and nothing else. */
  lemma WithoutMembers(s: seq<Entry>, i: nat, x: Entry)
    requires i < |s| && Sorted(s)
    ensures x in Without(s, i) <==> x in s && x != s[i]
    ensures |Without(s, i)| == |s| - 1
  {
    var t := Without(s, i);
    LessIrreflexive(s[i].key);
    if x in s && x != s[i] {
      var j :| 0 <= j < |s| && s[j] == x;
      assert x == if j < i then t[j] else t[j - 1];
    }
    if x in t {
      var j :| 0 <= j < |t| && t[j] == x;
      assert s[if j < i then j else j + 1] == x;
    }
  }

  lemma SortedParts(a: seq<Entry>, b: seq<Entry>)
    requires Sorted(a + b)
    ensures Sorted(a) && Sorted(b)
    ensures forall i, j :: 0 <= i < |a| && 0 <= j < |b| ==> Less(a[i].key, b[j].key)
  {
    var s := a + b;
    assert forall i :: 0 <= i < |a| ==> s[i] == a[i];
    assert forall j :: 0 <= j < |b| ==> s[|a| + j] == b[j];
  }

  lemma SortedWithout(s: seq<Entry>, i: nat)
    requires i < |s| && Sorted(s)
    ensures Sorted(Without(s, i))
  {
  }

  /** A key above everything goes to the end. */
  lemma PutLast(s: seq<Entry>, e: Entry)
    requires Sorted(s) && (s != [] ==> Less(s[|s| - 1].key, e.key))
    ensures Rank(s, e.key) == |s| && !Has(s, e.key) && Put(s, e) == s + [e] && Sorted(s + [e])
  {
    forall i | 0 <= i < |s| ensures Less(s[i].key, e.key) {
      if i < |s| - 1 { LessTransitive(s[i].key, s[|s| - 1].key, e.key); }
    }
    RankIs(s, e.key, |s|);
  }

  /** Taking the last entry of a suffix, or the first one of a prefix. */
  lemma EdgePop(c: seq<Entry>, e: seq<Entry>, last: bool)
    requires Sorted(c) && 1 <= |e| <= |c| && e == if last then c[|c| - |e|..] else c[..|e|]
    ensures if last then c[..|c| - |e|] + e[..|e| - 1] == Without(c, |c| - 1) && e[|e| - 1] == c[|c| - 1]
            else e[1..] + c[|e|..] == Without(c, 0) && e[0] == c[0]
    ensures Sorted(Without(c, 0)) && Sorted(Without(c, |c| - 1))
  {
    SortedWithout(c, 0);
    SortedWithout(c, |c| - 1);
  }

  /** Appending to a suffix. */
  lemma EdgePush(c: seq<Entry>, e: seq<Entry>, x: Entry)
    requires Sorted(c) && 1 <= |e| <= |c| && e == c[|c| - |e|..] && Less(e[|e| - 1].key, x.key)
    ensures c[..|c| - |e|] + (e + [x]) == Put(c, x) && !Has(c, x.key) && Sorted(Put(c, x)) && |Put(c, x)| == |c| + 1
  {
    assert c[..|c| - |e|] + (e + [x]) == c + [x];
    PutLast(c, x);
  }
}
