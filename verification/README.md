# libudx in Dafny

UDX is a dictionary file format. This project models the four cores of its C library and proves what
they promise to each other:

- **the in-memory B-tree** that collects the keys (`src/udx_btree.c`, `src/udx_keys.c`): set, delete,
  pop, load, clone by reference counting and copy on write, iterators with an explicit stack;
- **the index writer** (`src/udx_writer.c`): n sorted entries cut recursively into the nodes of a static
  tree, written child before parent, with back-patched leaf links;
- **the index reader** (`src/udx_reader.c`): the middle-positioning search over a byte pool, lookup,
  prefix match and the walk along the leaf chain;
- **the chunk store** (`src/udx_chunk.c`): blocks packed into compressed chunks and found by address
  through a one-chunk cache.

The code that works in place is modelled in place: classes with the source's fields, loops with
invariants, a `File` that is written at a position. Each such method is proved against a function or a
predicate on values, and the properties are proved about those.

## How the parts fit

| files | what they hold |
|---|---|
| `Bytes`, `Files`, `Folding`, `Entries` | strings in strcmp order, integers in bytes, files and compressed blocks, ordered entry lists |
| `BTreeValue` | what the B-tree algorithms do to the value of a node, and what that means for the ordered entries |
| `NodeGraph`, `NodeSteps`, `TreeSteps` | nodes shared between trees: exact reference counts, and steps that other trees cannot see |
| `BTree`, `BTreeCursor`, `BTreeIter`, `BTreeRuns` | the objects, the iterator stack as a position, whole runs |
| `Keys` | folded keys with their items |
| `EntryFormat`, `IndexTree`, `IndexLookup` | entry bytes; the partition, separators and heights; which keys a descent finds |
| `IndexImage`, `IndexStore`, `Writer` | the exact bytes of an index, what a file holds, the writer |
| `NodeSearch`, `Reader` | searching one node, and the database API |
| `Chunks` | the chunk store |
| `Limits` | a codec, a key and a block for which the written file cannot be read back |
| `Ordinary` | short entries, for which no limit is met, and a codec for them |
| `Dictionary` | builder, finalising, and values by key |

`BTree.Heap` holds, for the proofs only, every live node with its references and its value; the counts
in the objects are proved to be the number of references minus one. A tree's contents are the in-order
entries of its root's value, so clone isolation says that no operation on one tree changes the contents
of another.

The writer is proved to append exactly `Image(Plan(...))`, a function of the entries, the node capacity
and the place in the file. The reader relies on `Held`, which that image implies; which of its nodes the
reader accepts is then said exactly.

## Where the code differs from what it seems to promise

- **Separators.** The separator recorded at `src/udx_writer.c:275-277` is the last key of the child just
  built, because `peek` returns the entry that `next` handed out last, while `src/udx_reader.c:241-248` goes
  right on equality. Exact lookup therefore finds a stored key if and only if it is not the last key of a
  leaf other than the final one (`LookupExact`), so it misses one key for every leaf but the final one
  (`MissedKeys`); with 65 keys only the greatest is found (`SixtyFive`). Prefix match misses exactly the
  entry equal to the prefix when that is a separator. The variant that goes left on equality finds every
  stored key (`LookupComplete`).
- **Large nodes.** The writer accepts nodes of up to 4 GiB, the reader only of up to 1 MiB (`Legible`). One
  key with 65535 items of four characters is enough (`TooLargeToOpen`). The database then opens if and only
  if its root is within the limit; a lookup is an error if and only if another node on the way to the key
  is not; prefix match leaves out, without an error, everything from the first such leaf behind the one it
  lands on; and the iterator ends with an error in front of the first such leaf.
- **Large chunks.** The compressed size of a chunk is cast to 32 bits without a check, so its blocks come
  back if and only if it compresses to below 4 GiB (`ChunkBack`). With the codec of `Limits`, which doubles
  its input, a block of 2^31 bytes is accepted and lost (`LoseBlock`).
- **Oversized blocks.** `src/udx_chunk.h:41-44` says that a block above 64 KiB gets a chunk of its own; the
  code appends it to a buffer that is below 64 KiB, and the model follows the code.
- **Chunk index limit.** The check at `src/udx_chunk.c:133-135` never fires: the offset table stops at 2^31
  entries first.

## What is taken for granted

- Strings have no NUL inside; addresses and sizes fit their C types (subset types).
- Compression is a pair of functions with `decompress(compress(x)) == x` and no empty output. For the
  exact condition on large chunks also: a compressed stream that has lost its end does not decompress.
  `Limits` and `Ordinary` each have a codec that meets both; in `StoreOrdinary` a codec also adds at most a
  thousandth and 64 bytes to its input.
- Lower-casing one byte is idempotent and never makes a NUL (`AsciiLowers` has one that meets this).
- `(uint32_t)(sqrt((double)n) + 1)` is the integer square root plus one, which holds for all 32-bit n.
- Memory allocation succeeds. A file write fails only when the file would outgrow 63-bit positions.

## Model

| member | source | states |
|---|---|---|
| `BTreeValue.SetNodeContents` | src/udx_btree.c:474-513 | What a set does below one node is, on the in-order entries, an insertion or replacement in an ordered list; the entry handed back is the one replaced; MUST_SPLIT leaves the key absent |
| `BTreeValue.MustSplitIff` | src/udx_btree.c:499-512 | MUST_SPLIT comes back exactly when the key is absent and every node on the way to it is full |
| `BTreeValue.PathFullIff` | src/udx_btree.c:499-512 | A path is full exactly when every node the key leads to holds max items, none of them with that key |
| `BTreeValue.RetryOnce` | src/udx_btree.c:499-512 | After the full child has been split the retried call does not ask for a split again, so each level retries at most once |
| `BTreeValue.SplitJoin` | src/udx_btree.c:453-472 | The two halves of a split node and the median between them are the node again, with the same in-order entries |
| `BTreeValue.SplitContents` | src/udx_btree.c:499-512 | Splitting a full child keeps the in-order entries of the parent |
| `BTreeValue.RebalanceContents` | src/udx_btree.c:604-657 | Merging a child with a sibling, or moving one item between them, keeps the in-order entries |
| `BTreeValue.RebalanceShape` | src/udx_btree.c:604-657 | After rebalancing every child has between min and max items again, and all leaves stay at one depth |
| `BTreeValue.RebalanceSizes` | src/udx_btree.c:604-657 | Which way rebalancing goes: the child and its right sibling (the left one for the last child) merge when together they hold fewer than max items; else the left one hands over an item when it holds more, and the right one otherwise; nothing else moves |
| `BTreeValue.RotationJoin` | src/udx_btree.c:617-656 | Moving an item to a sibling and joining gives the same node as joining at once: a rotation only moves the cut |
| `BTreeValue.DelNodeContents` | src/udx_btree.c:659-738 | A delete by key, of the greatest or of the least removes exactly that entry from the in-order list and returns it, also when an internal item is replaced by its predecessor; an absent key changes nothing |
| `BTreeValue.DelSorted` | src/udx_btree.c:659-738 | Deletion keeps the entries strictly increasing |
| `BTreeValue.GetBelow` | src/udx_btree.c:582-602 | A key that a node does not hold is found in the child at its rank or nowhere |
| `BTreeValue.EdgeFirst` | src/udx_btree.c:809-836 | The first leaf holds the beginning of the contents, and rewriting its items rewrites just that beginning |
| `BTreeValue.EdgeLast` | src/udx_btree.c:838-865 | The last leaf holds the end of the contents, and rewriting its items rewrites just that end |
| `Entries.PutMembers` | src/udx_btree.c:781-783 | An update of the ordered list keeps every other key and stores exactly the new entry under its own |
| `Entries.PutSorted` | src/udx_btree.c:781-783 | An update keeps the list strictly increasing and puts the entry at its rank |
| `Bytes.LessAt` | src/udx_keys.c:32-36 | strcmp: where two strings first differ, the one with the smaller byte, or the one that has ended, is below the other |
| `Bytes.LessAgrees` | src/udx_keys.c:32-36 | The converse: as long as two strings agree the greater one goes on, and the smaller one has ended or goes on with no greater byte |
| `Entries.SortedMeans` | src/udx_keys.c:32-36 | An ordered list is in strcmp order, byte by byte |
| `Entries.WithoutMembers` | src/udx_btree.c:740-773 | A removal takes out exactly one entry |
| `NodeGraph.SoleOwner` | src/udx_btree.c:385-392 | A node with rc 0 has exactly one reference, because rc is the number of references minus one |
| `NodeGraph.CowLinked` | src/udx_btree.c:338-392 | Copy on write keeps every reference count exact |
| `NodeGraph.CowFaithful` | src/udx_btree.c:338-392 | Copy on write changes the value of no node |
| `NodeGraph.CowFrame` | src/udx_btree.c:385-392 | Copy on write of a child leaves all other nodes at and above its level, and the value of every other root, alone |
| `NodeGraph.DealLinked` | src/udx_btree.c:453-472 | Dealing the items and children of two siblings anew (split, merge, rotation) keeps every reference count exact |
| `NodeGraph.DealFrame` | src/udx_btree.c:604-657 | Such a deal touches nothing outside the parent and the two siblings that another tree could see |
| `NodeGraph.SplitDealValue` | src/udx_btree.c:453-472 | The split of the objects is the split of the values |
| `NodeGraph.MergeDealValue` | src/udx_btree.c:617-630 | The merge of the objects is the joining of the values |
| `NodeGraph.RightDealValue` | src/udx_btree.c:631-646 | Moving an item right between objects is the rotation of the values |
| `NodeGraph.LeftDealValue` | src/udx_btree.c:647-656 | Moving an item left between objects is the rotation of the values |
| `NodeGraph.GrowLinked` | src/udx_btree.c:552-567 | Putting a new root on top keeps the counts exact and is not seen by other trees |
| `NodeGraph.CollapseLinked` | src/udx_btree.c:753-762 | Dropping an emptied root in favour of its only child keeps the counts exact and is not seen by other trees |
| `NodeGraph.ShareLinked` | src/udx_btree.c:417-429 | A clone counts one more reference on the root and nothing else |
| `NodeSteps.SetRetry` | src/udx_btree.c:499-512 | The set on the objects after a split and retry does what the set on the values does |
| `NodeSteps.DelChildOk` | src/udx_btree.c:691-727 | The recursive delete on the objects does what the delete on the values does, including the predecessor swap |
| `NodeSteps.DelRebalanced` | src/udx_btree.c:728-734 | Delete followed by rebalancing on the objects does what it does on the values |
| `TreeSteps.SetTreeOk` | src/udx_btree.c:515-580 | After a set below the root the tree has its order, occupancy bounds, equal leaf depth and count |
| `TreeSteps.DelTreeOk` | src/udx_btree.c:740-773 | After a delete below the root the tree has its order, occupancy bounds, equal leaf depth and count, unless the root is empty |
| `TreeSteps.SplitRootTree` | src/udx_btree.c:552-567 | Splitting a full root keeps the contents and raises the height by one |
| `TreeSteps.CollapseStep` | src/udx_btree.c:753-762 | An emptied root with one child gives way to it: the contents stay, and no other tree notices |
| `TreeSteps.WriteInPlace` | src/udx_keys.c:104-121 | Where no node is shared, writing the item of a stored key in place does to the tree what a set of that key does |
| `BTrees.BTree.constructor` | src/udx_btree.c:248-291 | A new tree is empty; its node capacity is 255 for a request of 0 or 1, 3 for 2 or 3, the next lower odd number up to 2045 otherwise, and the least number of items is half of it |
| `BTrees.BTree.Bsearch` | src/udx_btree.c:168-188 | The index is the number of items below the key, and found says whether the item there has the key |
| `BTrees.BTree.CowChild` | src/udx_btree.c:385-392 | A shared child is replaced by a copy of its own, an unshared one is left alone |
| `BTrees.BTree.StepOk` | src/udx_btree.c:417-429 | A step of one tree leaves the contents, root, count and height of every other tree as they were |
| `BTrees.BTree.NodeSet` | src/udx_btree.c:474-513 | The recursive set changes the objects as the set on values says, keeps counts exact, and touches nothing that another tree sees |
| `BTrees.BTree.Rebalance` | src/udx_btree.c:604-657 | Merge and rotation on the objects do what they do on the values |
| `BTrees.BTree.NodeDelete` | src/udx_btree.c:659-738 | The recursive delete changes the objects as the delete on values says, and touches nothing that another tree sees |
| `BTrees.BTree.Set` | src/udx_btree.c:515-580 | The tree then holds the old ordered list with the item inserted or replaced; the old item comes back exactly on replacement; height grows by one exactly when there was no root or the path to an absent key was full; no other tree changes |
| `BTrees.BTree.Delete0` | src/udx_btree.c:740-773 | Removes exactly the named, greatest or least entry and returns it, or changes nothing; height drops by one exactly when the root empties; no other tree changes |
| `BTrees.BTree.Get` | src/udx_btree.c:582-602 | Returns the stored entry with the key, or nothing when there is none |
| `BTrees.BTree.Find` | src/udx_btree.c:582-602 | The node and the index of the stored item with the key, or nothing when there is none |
| `BTrees.BTree.WriteMut` | src/udx_btree.c:795-797 | Writing through the pointer of get_mut, where no node is shared: the list has the item replaced, and no other tree changes |
| `BTrees.BTree.Clone` | src/udx_btree.c:417-429 | The clone has the contents of the original, no node is copied, and no tree changes |
| `BTrees.BTree.Pop` | src/udx_btree.c:809-865 | Removes and returns the least or the greatest entry, by the fast path on an unshared outermost leaf or by delete; no other tree changes |
| `BTrees.BTree.Load` | src/udx_btree.c:1063-1101 | Has the effect and the result of set, by the fast path that appends to the last leaf or by set; no other tree changes |
| `BTreeRuns.Run` | src/udx_btree.c:417-429 | Clone isolation: over any run of set, load, delete and pop on one tree its contents change like a plain ordered list and no other tree sharing nodes with it changes |
| `BTreeRuns.RunBoth` | src/udx_btree.c:417-429 | After a clone any run on the original and any run on the clone each see the old contents and their own updates only |
| `BTreeRuns.RunHistory` | src/udx_btree.c:417-429 | For any interleaved history of set, load, delete, pop and clone over any number of trees, every tree holds what its own plain list would hold, and trees outside the history do not change |
| `BTreeRuns.AppliedMeans` | src/udx_btree.c:515-580 | What the updates of the plain list are: a set adds its entry and takes out the one with the same key, a delete takes out the entry with its key, a pop the last or the first one; the list stays ordered |
| `BTreeRuns.RemovalMeans` | src/udx_btree.c:740-773 | What a removal hands back: exactly the entry taken out, and nothing only when the key is absent or the tree is empty |
| `BTreeRuns.PreviousIs` | src/udx_btree.c:582-602 | What a look-up or a set hands back: the entry with the key, or nothing exactly when there is none |
| `BTreeRuns.SteppedMeans` | src/udx_btree.c:417-429 | A step of a history updates one list and leaves the others alone, or adds a copy of one of them |
| `BTreeRuns.HistoryParts` | src/udx_btree.c:417-429 | A history acts as its parts one after the other |
| `BTreeCursor.Window` | src/udx_btree.c:1105-1132 | The node on top of an iterator stack holds a stretch of the tree's ordered contents |
| `BTreeCursor.ItemHere` | src/udx_btree.c:1220-1224 | The item the topmost index names is the entry at the position the stack stands for |
| `BTreeCursor.PopUp` | src/udx_btree.c:1197-1207 | Leaving a used-up node keeps the position; leaving the root means the contents are used up |
| `BTreeCursor.PopDown` | src/udx_btree.c:1235-1250 | Climbing back from before a node's first item goes to the item just before the node, or to the start |
| `BTreeCursor.Around` | src/udx_btree.c:1209-1219 | The children at the two sides of an item end just before and begin just after it |
| `BTreeCursor.SeekDown` | src/udx_btree.c:1277-1294 | The rank of a key in a subtree is where the child at its rank begins plus its rank in that child |
| `BTreeIters.Iter.Edge` | src/udx_btree.c:1138-1187 | first and last stand on the least and the greatest entry, or report an empty tree |
| `BTreeIters.Iter.Next` | src/udx_btree.c:1189-1225 | From fresh it is first; from entry p it goes to entry p + 1, or reports the end with an empty stack when there is none; the stack never exceeds the tree height |
| `BTreeIters.Iter.Prev` | src/udx_btree.c:1227-1265 | From entry p it goes to entry p - 1, or reports the start when there is none; a fresh iterator stays fresh |
| `BTreeIters.Iter.Seek` | src/udx_btree.c:1268-1295 | Lands on the first entry not below the key, or reports that there is none |
| `BTreeRuns.Collect` | src/udx_btree.c:1189-1225 | Repeated next from a fresh iterator hands out every entry once, in strcmp order, and then reports the end |
| `BTreeRuns.CollectBack` | src/udx_btree.c:1227-1265 | last and repeated prev hand out every entry once, in reverse order |
| `BTreeRuns.CollectFrom` | src/udx_btree.c:1268-1295 | seek and repeated next hand out exactly the entries not below the key, in order |
| `BTreeRuns.ThereAndBack` | src/udx_btree.c:1189-1265 | next then prev, and prev then next, come back to the same entry |
| `Folding.FoldStable` | src/udx_utils.c:25-42 | Folding keeps the length, is idempotent and makes no terminator |
| `Folding.FoldAlike` | src/udx_utils.c:25-42 | Two strings have one folded form exactly when they have one length and their characters agree when lowered |
| `Folding.FoldString` | src/udx_utils.c:25-42 | The result has the length of the string, and each of its characters is the lowered one |
| `KeySets.AddGathers` | src/udx_keys.c:82-156 | An addition keeps the container as it should be: sorted, one entry per folded key, each with exactly the items added under it in insertion order |
| `KeySets.AddTotal` | src/udx_keys.c:101-154 | An addition adds exactly one item over all entries |
| `KeySets.GatheredGathers` | src/udx_keys.c:82-156 | The entries after any additions are the folded keys, each with exactly the items added under it in insertion order, and as many items as additions |
| `KeySets.Picked` | src/udx_keys.c:82-156 | The items of a folded key are those of the additions whose keys, lowered character by character, are that key, in the order of the additions |
| `KeySets.GatheredAlike` | src/udx_keys.c:82-156 | The key of an entry is, character by character, the lowered original key of each of its items, and no addition is lost |
| `KeySets.AddItem` | src/udx_keys.c:104-147 | The item of a known key is appended in place through get_mut, a new key is set; either way the list has the item added, and no node becomes shared |
| `KeySets.Keys.Add` | src/udx_keys.c:82-156 | Refused exactly when the item counter is at UINT32_MAX, with nothing changed; otherwise the container holds the entries of all additions including this one; no other tree changes; the addition is then the last item of the entry whose key is the added key lowered character by character |
| `KeySets.KeysIter.Next` | src/udx_keys.c:203-211 | Hands out the entries in order, then nothing |
| `KeySets.KeysIter.Peek` | src/udx_keys.c:213-216 | Peek is the entry handed out last, not the one to come |
| `EntryFormat.SerializeInto` | src/udx_writer.c:110-165 | Appends the byte form of the entry and returns its length; 0 and no change exactly when there are more than 65535 items |
| `Bytes.LittleEndian` | src/udx_writer.c:126-161 | Numbers in the file are little-endian: byte k counts for 256^k |
| `EntryFormat.ItemLayout` | src/udx_writer.c:145-161 | An item: the original key, its terminator, 8 bytes of address, 4 bytes of size |
| `EntryFormat.EntryLayout` | src/udx_writer.c:110-165 | An entry: the folded key, its terminator, 2 bytes of item count, and the items one behind the other with nothing between them |
| `EntryFormat.ParseEntry` | src/udx_reader.c:282-366 | On any bytes: the entry and its size, or 0 when it does not fit; the size-only mode returns the same size |
| `EntryFormat.EntryBack` | src/udx_reader.c:282-366 | Parsing undoes serialising, whatever bytes stand before and behind the entry, and consumes exactly its length |
| `EntryFormat.EntryForth` | src/udx_reader.c:282-366 | Bytes that parse are the serialised form of the entry they parse to |
| `IndexTrees.CutIsDivision` | src/udx_writer.c:266 | The cut between the children is floor(index_size * x / (max_elements + 1)) |
| `IndexTrees.CutStep` | src/udx_writer.c:264-287 | Neighbouring cuts floor(N*x/(max+1)) are N/(max+1) apart, rounded down or up; the first is 0 and the last is N |
| `IndexTrees.PartSize` | src/udx_writer.c:264-287 | With more than max entries every child gets at least one and fewer than all of them, so the recursion ends |
| `IndexTrees.NearIff` | src/udx_writer.c:264-287 | Being within one of the quotient in this sense is being the quotient rounded down or up |
| `IndexTrees.LeavesHold` | src/udx_writer.c:236-287 | The leaves from left to right hold exactly the sorted entries, and none is empty |
| `IndexTrees.SeparatorBounds` | src/udx_writer.c:264-287 | Separator x is the greatest key in child x and below every key of the children behind it |
| `IndexTrees.SeparatorsAreLastKeys` | src/udx_writer.c:273-279 | Over the whole tree the separators are, in order, the last keys of all leaves but the final one |
| `IndexLookups.SeparatorsIncrease` | src/udx_writer.c:273-279 | The separators of the whole tree are strictly increasing, so each occurs once |
| `IndexTrees.DepthSize` | src/udx_writer.c:236-287 | Every node at depth k holds n/(max+1)^k entries, rounded down or up |
| `IndexTrees.HeightIsDeepest` | src/udx_writer.c:263-318 | The reported height is the level of the lowest leaf, and every leaf is on that level or the one above |
| `IndexTrees.TwoLevels` | src/udx_writer.c:332-339 | Height 1 holds at most max entries, height 2 at most max*(max+1), and exactly these |
| `IndexTrees.HeightBounds` | src/udx_writer.c:332-339 | With max = clamp(floor(sqrt n)+1, 64, 8192): height 1 iff n <= 64, at most 2 iff n <= 67117056, at most 3 for every 32-bit n |
| `IndexTrees.NodeSizes` | src/udx_types_internal.h:32-33 | How the clamped square root compares with n, from the constants 64 and 8192 |
| `IndexTrees.CapacityIs` | src/udx_writer.c:336-339 | The node capacity m for n keys: between 64 and 8192, (m-1)^2 <= n when m is above 64, and n < m^2 when m is below 8192 |
| `IndexTrees.CapacityUnique` | src/udx_writer.c:336-339 | Only one number meets that |
| `IndexTrees.EveryNode` | src/udx_writer.c:236-287 | Every node of the tree has that capacity: m separators and m + 1 children, or at most m entries |
| `IndexLookups.LandingOk` | src/udx_reader.c:219-273 | The descent ends at the leaf where everything before it is passed by the key and its last entry is not |
| `IndexLookups.LandingRank` | src/udx_reader.c:652-690 | The lower bound inside that leaf is the lower bound among all entries, one further when the key is a separator |
| `IndexLookups.PassedIff` | src/udx_reader.c:241-248 | The descent passes separators exactly as long as they are at most the key in strcmp order; the left-going variant stops at the key itself |
| `IndexLookups.LookupExact` | src/udx_reader.c:609-650 | Exact lookup is sound, and finds a stored key if and only if it is not a separator, that is, not the last key of a leaf other than the final one |
| `IndexLookups.MissedKeys` | src/udx_reader.c:609-650 | Exact lookup misses as many stored keys as there are leaves, less one |
| `IndexLookups.MissedCount` | src/udx_reader.c:609-650 | Of up to 67117056 keys exact lookup misses none when there are at most 64, and else as many as the square root of their number, rounded down, plus one, within 64 and 8192 |
| `IndexLookups.LookupComplete` | src/udx_reader.c:241-248 | If equality went to the child left of the separator, every stored key would be found |
| `IndexLookups.SixtyFive` | src/udx_writer.c:332-339 | With 65 keys every leaf holds one entry, and exact lookup finds only the greatest key |
| `IndexLookups.RunIsMatch` | src/udx_reader.c:714-757 | A run of matches from the lower bound that stops at the end, a mismatch or the limit is the whole filtered list cut to the limit |
| `Bytes.PrefixIff` | src/udx_reader.c:718 | A string has a prefix exactly when it is that prefix with something behind it |
| `IndexLookups.MatchMeans` | src/udx_reader.c:714-757 | The limited list of matches in plain words: strcmp order, only stored entries whose key is the prefix with something behind it, no more than the limit, and none left out unless the limit is used up by smaller ones |
| `IndexImages.Relink` | src/udx_writer.c:214-221 | A back-patch of the last link turns the image of a tree into its image with another next leaf, and changes no other byte |
| `IndexImages.PlanBuilt` | src/udx_writer.c:236-318 | The tree the writer lays out is the tree of the partition, with its separators |
| `IndexImages.FitsIff` | src/udx_writer.c:56-92 | What the writer can write: trees all of whose nodes have data and compressed data below 4 GiB, at most 65535 children or entries, and at most 65535 items in an entry |
| `IndexStores.ImageStored` | src/udx_writer.c:56-92 | The image of a tree holds every node at the offset its parent records, and every leaf followed by its link |
| `IndexStores.PlanDownhill` | src/udx_writer.c:236-318 | Child offsets are strictly smaller than the parent's all the way down |
| `IndexStores.LeavesRise` | src/udx_writer.c:168-233 | Leaf offsets strictly increase from left to right |
| `IndexStores.HeldLinked` | src/udx_writer.c:206-229 | Following next_leaf from the first leaf visits every leaf once, left to right, and ends at 0 |
| `IndexStores.WrittenIsHeld` | src/udx_writer.c:236-318 | Whatever the writer accepts and writes is stored as the reader expects it, whatever is appended later |
| `Writers.FirstOfPlan` | src/udx_writer.c:226-229 | The first leaf is written first: its offset is where the index begins |
| `Writers.PlanTight` | src/udx_writer.c:236-318 | Nothing lies between the nodes of an index: a child begins where the one before it ends, a node follows its last child, and a leaf is 8 bytes longer than its block |
| `Writers.AppendsSound` | src/udx_writer.c:168-233 | A build step makes the file longer by exactly the tree, and its link position lies inside the file |
| `Writers.RowStep` | src/udx_writer.c:264-287 | Building one more child appends its image and links the last leaf so far to its first leaf |
| `Writers.WriteIndexNode` | src/udx_writer.c:56-92 | Appends the compressed block and returns its offset; 0 exactly when its data or the compressed data take 4 GiB or more, or the file would outgrow 63-bit positions |
| `Writers.Build.PatchLink` | src/udx_writer.c:214-221 | Overwrites the 8 bytes of the previous leaf's link, if there is one, and returns to the end of the file |
| `Writers.Build.LeafBuffer` | src/udx_writer.c:178-198 | The leaf header and the next n entries; fails exactly when one of them has more than 65535 items |
| `Writers.Build.BuildLeafNode` | src/udx_writer.c:168-233 | Appends the leaf with an empty link, links the previous leaf to it, records the first leaf; 0 exactly when a limit is exceeded |
| `Writers.Build.Separator` | src/udx_writer.c:273-279 | The recorded separator is the last key of the child just built |
| `Writers.Build.NodeBytes` | src/udx_writer.c:295-318 | The data of an internal node: child count, offsets, separators |
| `Writers.Build.BuildNode` | src/udx_writer.c:236-330 | Consumes exactly n entries and appends exactly the image of the tree over them, with only the previous leaf's link changed before it; reports its offset and height; 0 exactly when a count, a size or the file limit is exceeded |
| `Writers.BuildIndex` | src/udx_writer.c:332-364 | The index over all keys behind what the file held: its bytes, root offset, first leaf and height, the height within 1 to 3; fails exactly when a limit is exceeded; the capacity m of its nodes is floor(sqrt n)+1 within 64 and 8192; the root block ends the file; and over entries of at most 120 bytes it succeeds |
| `NodeSearches.FindChildOffset` | src/udx_reader.c:214-273 | For any strictly increasing separators the middle-positioning search ends, stays in bounds, never needs the clamp, and picks the child behind all separators not above the key, as a linear scan would |
| `NodeSearches.NodeLayout` | src/udx_writer.c:295-316 | The bytes of an internal node: a 1, 2 bytes of child count, 8 bytes for each child, and the separators with a terminator each, nothing between them |
| `NodeSearches.WalkBack` | src/udx_reader.c:234-238 | From any byte of the pool the walk back stops at the beginning of the separator that the byte belongs to |
| `NodeSearches.Locate` | src/udx_reader.c:231-238 | Every byte of the pool belongs to exactly one separator or its terminator |
| `NodeSearches.EntryInLeaf` | src/udx_reader.c:392-422 | Entry i of a leaf lies where the sizes of the entries before it say |
| `NodeSearches.LeafLayout` | src/udx_writer.c:178-198 | The bytes of a leaf: a 2, 2 bytes of entry count, and the entries one behind the other |
| `NodeSearches.EntryOffsets` | src/udx_reader.c:392-422 | On any leaf data: the first entry begins at byte 3 and each one where the one before it ends; failure exactly when one of them does not parse |
| `NodeSearches.LowerBound` | src/udx_reader.c:426-448 | The search over the entry pointers stays in bounds for any keys, and for increasing keys ends at the number of keys below the searched one |
| `NodeSearches.SearchLeaf` | src/udx_reader.c:379-472 | On any leaf data: nothing when an entry does not fit the data; otherwise only an entry that meets the search, and with increasing keys the first entry not below the key if that one does; the key answered is the searched one, or has it in front |
| `NodeSearches.LeafAnswered` | src/udx_reader.c:379-472 | In a written leaf: the first entry not below the key, when it equals the key or has it as a prefix; otherwise none |
| `Readers.ReadIndexNode` | src/udx_reader.c:91-150 | On any file: the node at the offset, or none when the offset is 0, a size is 0 or above 1 MiB, the file is short, the data does not decompress to the announced size or the type is unknown |
| `Readers.NodeAtIff` | src/udx_reader.c:91-150 | What has to lie at an offset for the reader to accept it: two sizes from 1 to 1048576, that many bytes, which decompress to the announced size, and a first byte of 1 or 2 |
| `Readers.BlockRead` | src/udx_reader.c:103-106 | A stored node is read back if and only if its data and its compressed data are at most 1 MiB |
| `IndexStores.WayLegibleIff` | src/udx_reader.c:620-630 | The way to a key is legible exactly when every node that a descent reaches below the root is within 1 MiB |
| `Readers.LeafRead` | src/udx_reader.c:91-167 | A written leaf is read back if and only if it is within the limit, and the link behind it too |
| `Readers.OpenDb` | src/udx_reader.c:545-552 | On a written index: the database opens if and only if the root node is within the limit, that is 1048576 bytes for its data and for the compressed data |
| `Readers.Db.Descend` | src/udx_reader.c:620-632 | UDX_ERR_FORMAT if and only if a node below the root on the way is above the limit; otherwise the leaf that the separators lead to, positioned at its link unless it is the root |
| `Readers.Db.Lookup` | src/udx_reader.c:609-650 | UDX_ERR_FORMAT if and only if a node below the root on the way is above the limit; otherwise UDX_OK with the stored entry of the folded key if it is stored and not a separator, else UDX_NOT_FOUND; the entry found has, character by character, the lowered key, and when nothing is found no stored key outside the separators is the lowered key |
| `Readers.Db.ScanLeaf` | src/udx_reader.c:715-740 | Collects the matching entries of one leaf and stops at the first mismatch or at the limit |
| `Readers.Db.PrefixMatch` | src/udx_reader.c:652-772 | UDX_ERR_FORMAT if and only if a node below the root on the way is above the limit; otherwise, in ascending order and cut to the limit given (0: no cut), exactly the stored entries with the folded prefix, minus the entry equal to the prefix when that is a separator, and without those from the first leaf behind the one landed on that is above the limit; UDX_NOT_FOUND when there are none; in plain words: every key returned is the folded prefix with something behind it, in strcmp order, and every stored key of that form in front of the unreadable leaf that is not the skipped separator is returned, unless the limit is used up by smaller ones |
| `Readers.Db.LitIff` | src/udx_reader.c:742-757 | An entry lies in front of the unreadable leaf exactly when all leaves from the landing on that begin at it or before it are accepted |
| `Readers.CreateIter` | src/udx_reader.c:1070-1101 | No iterator if and only if the first leaf is above the limit; otherwise one that stands before the first entry |
| `Readers.DbIter.Next` | src/udx_reader.c:1111-1168 | The next entry in order through the leaf chain; behind the last one UDX_DONE; in front of the first leaf above the limit UDX_ERR_FORMAT |
| `Readers.WalkAll` | src/udx_reader.c:1070-1168 | Walking a database yields every entry once, in order, and then UDX_DONE if and only if every leaf is within the limit; otherwise the entries in front of the first leaf that is not, and then UDX_ERR_FORMAT; the keys come in strcmp order, byte by byte |
| `Limits.TooLargeToOpen` | src/udx_reader.c:103-106 | One key with 65535 items of four characters passes all checks of the writer, and its node cannot be read |
| `Limits.DoublingTooLarge` | src/udx_reader.c:103-106 | The same with a concrete codec and no assumption left |
| `Limits.TooLargeToReach` | src/udx_reader.c:620-630 | With 65 keys of which the last has 65535 items the way to that key does not lead through |
| `Chunks.AddrParts` | src/udx_chunk.c:22-34 | Chunk and offset come back from their address, which is below 2^48 and so never UDX_INVALID_ADDRESS |
| `Chunks.CapacityGrows` | src/udx_chunk.c:68-81 | The offset table doubles from 64 and stops exactly at 2^31 entries |
| `Chunks.AccountsAdded` | src/udx_chunk.c:164-204 | A block appended to a buffer of less than 64 KiB lies whole in its chunk, at an address above all earlier ones |
| `Chunks.AccountsSaved` | src/udx_chunk.c:57-141 | Saving the buffer as a chunk keeps every block where its address says |
| `Chunks.ChunkWriter.Reserve` | src/udx_chunk.c:68-100 | Room for one more offset; fails exactly when the table holds 2^31 |
| `Chunks.ChunkWriter.SaveCurrent` | src/udx_chunk.c:57-141 | The buffer becomes a chunk of the file exactly when it is empty, or there are fewer than 2^31 chunks and the file stays below 2^63 bytes |
| `Chunks.ChunkWriter.AddBlock` | src/udx_chunk.c:164-204 | Succeeds exactly when the block is not empty, buffer and block together are below 2^32 bytes, and the buffer is below 65536 bytes or can be saved (fewer than 2^31 chunks, and the file below 2^63 bytes after it); the address is (chunks, buffer size) or, after a save, (chunks + 1, 0); blocks conserve data, addresses increase, and every saved chunk has at least 64 KiB |
| `Chunks.PackedMeans` | src/udx_chunk.c:164-204 | Packing one block, as a step on values: when it is accepted, what the store is afterwards, and its address |
| `Chunks.ChunkWriter.Finish` | src/udx_chunk.c:206-237 | Saves the rest and appends the chunk table; 0 exactly when the offset table or the file is full; the size of the file afterwards; condition, table offset and file size are given in bytes |
| `Chunks.ChunkReader.ReadTable` | src/udx_chunk.c:264-302 | On any file: the offsets of the table, or failure exactly when the file is too short for it |
| `Chunks.ChunkReader.LoadChunk` | src/udx_chunk.c:317-381 | On any file: succeeds exactly when a reader without a cache would, and then holds that chunk; a cache that is kept is the decoded chunk at its index |
| `Chunks.ChunkReader.GetBlock` | src/udx_chunk.c:383-413 | The result of a reader without a cache, for every address, size and file |
| `Chunks.GetBlocks` | src/udx_chunk.c:317-413 | Over any history of requests, failed ones included, the cache never shows |
| `Chunks.FetchedIff` | src/udx_chunk.c:317-413 | What has to lie in the file for a block to be found at an address: the chunk that bits 16 to 47 name, whole and decoded to its announced size, with the block at the offset that the lower 16 bits name |
| `Chunks.ChunkBack` | src/udx_chunk.c:102-128 | A chunk comes back if and only if its compressed size is below 2^32; the writer casts that size to 32 bits unchecked |
| `Limits.LostChunk` | src/udx_chunk.c:105-120 | With a concrete codec a chunk of 2^31 bytes is written and does not come back |
| `Limits.LoseBlock` | src/udx_chunk.c:105-120 | With a concrete codec a block of 2^31 bytes is accepted, the store is finished, and the block cannot be fetched |
| `Chunks.BlockComesBack` | src/udx_chunk.c:383-413 | Every accepted block comes back from its address byte for byte, if and only if its chunk compresses to below 2^32 bytes |
| `Chunks.StoreAll` | src/udx_chunk.c:164-237 | Any sequence of blocks, then finish: this succeeds if and only if each block can be packed and the store closed; then all of them are in the file at the addresses handed out; the first address is 0, and each block goes right behind the one before it while that ends within the first 64 KiB of its chunk, else to the beginning of the next chunk |
| `Chunks.OrdinaryCloses` | src/udx_chunk.c:164-237 | With a codec that at most doubles its input, up to 16 TiB of non-empty blocks of less than 2 GiB are all accepted, the store is closed, and every chunk comes back |
| `Chunks.FetchAll` | src/udx_chunk.c:264-413 | Reading all of them back by address |
| `Dictionaries.ItemsMatch` | src/udx_writer.c:680-692 | The items of a folded key point at the blocks of the values added under it, in the same order |
| `Dictionaries.Builder.AddEntry` | src/udx_writer.c:680-692 | Succeeds exactly when the value can be packed and the item counter is not at its maximum, and then records the key at the address of its value; an empty value is an invalid parameter; otherwise nothing is recorded; condition and address are given in bytes |
| `Dictionaries.AddAll` | src/udx_writer.c:680-692 | Adding a whole input succeeds exactly when every value can be packed and there are fewer than 2^32 of them |
| `Dictionaries.Builder.Finalize` | src/udx_writer.c:580-628 | An invalid parameter exactly when nothing was added; succeeds exactly when moreover the store can be closed and the index fits behind it; then the chunks, their table and the index over all keys are in the file |
| `Dictionaries.FetchValues` | src/udx_reader.c:790-835 | The data of all items of an entry in order, or UDX_ERR_FORMAT when one of them cannot be fetched |
| `Dictionaries.FetchedAllIff` | src/udx_reader.c:804-828 | All items are fetched exactly when each one is, with their original keys, in order |
| `Dictionaries.FetchedMatches` | src/udx_reader.c:804-828 | All items of an entry are fetched if and only if the chunks they point into compress to below 4 GiB |
| `Dictionaries.ValueLookup` | src/udx_reader.c:837-854 | Lookup and fetch together, with every error |
| `Dictionaries.OpenAndLookup` | src/udx_reader.c:837-854 | From a finalised file, for every outcome: not opened when the root is above the limit; UDX_ERR_FORMAT when another node on the way is, or when a chunk of a value compresses to 4 GiB or more; UDX_NOT_FOUND when nothing was added under the key or its folded key is a separator; else the keys and values added, in order and byte for byte |
| `Dictionaries.OutcomeMeans` | src/udx_reader.c:837-854 | The outcome in plain words: the values returned are those of all additions whose keys have the length of the looked-up key and agree with it when lowered, in order; when nothing is found there is none, or the lowered key is a separator |
| `Dictionaries.StoreAndLookup` | src/udx_writer.c:580-692 | The whole way from an input to a value: writing succeeds exactly when every value can be packed, the store can be closed and the index fits, and then the outcome of every lookup is the one above; the values returned are those of all inputs whose keys have the length of the looked-up key and agree with it when lowered, in order |
| `Ordinary.OrdinaryIndex` | src/udx_writer.c:332-364 | With a codec that adds at most a thousandth and 64 bytes, an index over any number of entries of at most 120 bytes is written, its database opens, no lookup is an error and no leaf is left out |
| `Ordinary.StoringMeets` | src/udx_writer.c:56-92 | All that is taken for granted of a codec, with that bound, can be had at once |
| `Dictionaries.StoreOrdinary` | src/udx_writer.c:580-692 | The whole way for an ordinary input: it is always written, and every lookup returns the values of all inputs whose keys agree with the looked-up key when lowered, or UDX_NOT_FOUND exactly when there are none or the folded key is a separator |

## Left out

- BTrees.BTree.CowChild: the recursive branch of `btree_node_free` for a node that nobody refers to any more, `udx_btree_clear` and `udx_btree_free` are not modelled; the node that loses a reference here always has another one.
- BTrees.BTree.Set: item clone and free callbacks, hints, custom searchers and the out-of-memory paths are not modelled; nor are the spare slots that hold returned items.
- BTrees.BTree.Bsearch: the search with a path hint (`src/udx_btree.c:190-238`) is not modelled; it returns the same index by trying a remembered one first.
- BTreeIters.Iter.Next: stepping again after it has returned false indexes an empty stack in the code, so it is outside the precondition; the same holds for `prev`.
- BTreeIters.Iter.Edge: the tree must not change while an iterator is in use, as in the code.
- EntryFormat.SerializeInto: buffers are sequences, so the growth of the C buffer and of the result arrays is not modelled.
- EntryFormat.ParseEntry: an unterminated string ends at the end of the data, where the C code would read on.
- NodeSearches.FindChildOffset: its input is node data as the writer lays it out; on damaged node data the code has no bounds checks to model.
- NodeSearches.SearchLeaf: leaf data shorter than its three-byte head is not modelled; the code has no check for it.
- Writers.Build.BuildNode: child offsets and separators are collected in sequences instead of arrays of fixed size.
- Writers.BuildIndex: after a failure nothing is said about what has been appended to the file; the caller seeks back and discards it.
- Dictionaries.Builder.Finalize: the file header, the database header and its checksum, the database table, names and metadata are not modelled; the header's fields are the returned handle.
- Dictionaries.Builder.AddEntry: `udx_db_builder_add_value` and `udx_db_builder_add_key_entry`, which let several keys share one value, are not modelled; they are the two halves of this operation.
- Partial writes and failing devices, platform seek and tell variants, and big-endian hosts are not modelled.
- Scan callbacks (`ascend`, `descend`), `udx_btree_min`, `udx_btree_max` and plain accessors would only add easy members.
- Opening and closing files and databases by name, apart from the index and the chunk table, is not modelled.
