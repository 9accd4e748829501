# A verified model of dbtoy's storage layer

dbtoy keeps a table in a page-addressed B+ tree (`src/core/btree.cpp`, `src/core/btree.h`), in a page cache over a
file with a 16-byte header (`BTreePager`), and, in an older form, in a packed row file whose row count is not stored
(`Table` over `DbFile`). This project models the three in Dafny, in the imperative form of the source, and proves them
against plain values: a map from keys to rows, a growing array of pages, and a sequence of rows.

## How it is built

- `PageModel` has the constants, the value of a page (`Leaf` or `Inner`) and what inserting into sorted cells,
  separators and children means.
- `NodePage` is the page buffer: a class over arrays with the in-place backward loops and the binary search of
  `btree.h`. Every method equates the new page value with a function of the old one.
- `TreePager` is the heap of page objects. Its ghost field `view` is the sequence of page values.
- `Forest` states the tree invariant on such a sequence, page by page. Each page has a ghost mark: its level and the
  interval of keys its subtree may hold. A `Pending` value says whether a split is still climbing. The steps of an
  insert (leaf insert, leaf split, entry into a parent, split of a parent, new root) are functions or relations on
  forests, with one lemma each that they keep the invariant. `Protocol` is the state machine of these steps. `Contents`,
  `Tally` and `Growth` add the stored rows, the counts and the number of pages an insert needs; `TreeState` puts all of
  it together in one predicate, `Standing`, that each step keeps.
- `BPlusTree` is the tree: `Create` and `Open`, `Find`, `Insert` with its climbing loop, the range walk, `SelectCell`
  and `CheckValid`.
  `RangeVisit` holds the reasoning about the range walk, `Checker` the cases that the runtime checker rejects.
- `Paths`, `Separators`, `Bounds`, `TreeFacts` and `Runs` prove properties of every tree and of whole runs of inserts;
  `TreeFacts` states them in plain numbers and in terms of the pages alone.
- `Disk` is a file whose single reads and writes transfer as much as the system likes; `PageFile` is `BTreePager`;
  `PageCodec` is the byte layout of a page, with an encoder; `TreeStore` closes and opens trees on such a file;
  `TableFile` is `DbFile` and `Table`.

## Main results

- `Insert` is insertion into a map. A present key is refused and no page changes. An absent key is added and every
  other row stays. The whole-tree invariant holds again afterwards, and the number of pages grows by exactly one per
  full page on the way up, plus one when the root splits.
- Every stage of every run of the insert protocol is a valid tree but for at most one pending split, and every tree the
  implementation builds is reached by such a run.
- A full select after any run of inserts returns the first row of every key in ascending key order; the order of a
  run with distinct keys does not matter. A run goes on until the page table has no room for the next insert; up to
  250L distinct keys it goes to the end.
- The same holds over any number of sessions, each of which opens the file, inserts a batch and closes it: the bytes
  of the file carry the tree from one session to the next.
- Every page is reachable from the root by exactly one path, all leaves lie at one depth, and each separator is the
  largest key stored left of it.
- A tree of N rows with leaf load L has one page or at most 4N/L - 1; up to 250L rows no insert runs out of pages.
- `CheckValid` accepts exactly the trees in which no inner page but the root carries a root byte and every such page has at
  least half of the requested load. Neither condition follows from the insert protocol alone: the root byte of a fresh
  page is never written, and the checker compares with the requested load, not with the one in force. Both failures
  occur on trees that inserts build. Inserting the keys 1 to 7 into an empty tree with loads of two, with one root byte
  set in fresh memory, gives a tree on which the checker throws (`Checker.StrayExample`). With a requested load above
  the page capacity it throws after every insert that splits an inner page (`Runs.InsertAndCheck`). When fresh memory
  is zeroed and the load fits, every tree built by inserts is accepted (`Runs.BuildAndCheck`).
- Any interleaving of pager operations acts on a plain growing array of pages, and each session starts with the
  array and the root id that the one before ended with, whatever the single transfers return.
- Any sequence of table sessions recovers the row count from the file length and every row at its slot.

## Assumptions

- The loads in force, the smaller of the requested load and the page capacity, are even and at least 2, and stay the
  same over the life of a tree (`set_node_load` asserts this). Rows have the row size of the tree.
- A fresh page's root byte and parent bytes are arbitrary. The flag `zeroed` says that fresh memory has root byte 0;
  only the results about `CheckValid` and root bytes use it.
- `allocate_page` does not compare with `TABLE_MAX_PAGES`. `Insert` requires that its pages fit (`RoomFor`).
  `Runs.HasRoom` decides that by walking up the parent links, and the runs stop at the first insert it refuses;
  `Runs.RoomBelow250` derives it from the number of rows.
- Where a comment and the code differ, the code is followed: the inner split leaves n/2 separators on each side and
  moves the middle one up, and the search returns the position of an equal key or of the last smaller one.

## Model

| member | source | states |
|---|---|---|
| `NodePage.Page.SearchKeyPosition` | src/core/btree.h:72-96 | The binary search returns the predecessor position: the last key not above the given one, or -1. |
| `PageModel.CellSlotSplits` | src/core/btree.h:72-96 | In a leaf all cells before the slot have smaller keys and all cells from it on larger ones, an equal key being the last before it. |
| `PageModel.CellsWithInserts` | src/core/btree.h:288-306 | The specification of a leaf insert is the old cells with the new one put in at its sorted place, all others in their order. |
| `PageModel.EntryInserts` | src/core/btree.h:524-560 | The specification of an inner insert puts the separator at its sorted place and the new child directly behind the old one. |
| `PageModel.LeafCapacityFills` | src/core/btree.h:185-204 | A leaf has room for the largest even number of cells of 4 + rowSize bytes that fits in 4078 bytes. |
| `NodePage.Page.LeafInsert` | src/core/btree.h:288-306 | The shifting loop inserts the cell in order; root byte, parent and all other cells stay. |
| `NodePage.Page.LeafInsertAndSplit` | src/core/btree.h:325-388 | In place and backwards, the cells with the new one inserted are cut into n/2+1 left and n/2 right; the left maximum is returned and no cell is lost. |
| `NodePage.Page.SearchInsertLocation` | src/core/btree.h:672-712 | Succeeds exactly for an absent separator and then gives its sorted place; otherwise gives the position that holds it. |
| `NodePage.Page.InnerInsert` | src/core/btree.h:524-560 | Puts the separator in order and the right child behind the left one; an empty node gets both children. |
| `NodePage.Page.InnerInsertAndSplit` | src/core/btree.h:573-661 | One backward loop leaves the lower n/2 separators, moves the upper n/2 out and returns the middle one, with the children to match, for every insert position. |
| `NodePage.Page.ResetLeaf` | src/core/btree.h:185-204 | Formatting a leaf empties it and writes neither the root byte nor the parent. |
| `NodePage.Page.ResetInner` | src/core/btree.h:441-455 | Formatting an inner node empties it and writes neither the root byte nor the parent. |
| `Forest.LeafInsertKeepsInv` | src/core/btree.cpp:100-109 | A cell put into the owning leaf with room keeps the whole-tree invariant. |
| `Forest.LeafSplitKeepsInv` | src/core/btree.cpp:111-122 | After a leaf split the pages are a valid tree but for one pending pair of equal level, separated by the returned key, whatever the fresh page's root byte and parent. |
| `Forest.PendingSlot` | src/core/btree.h:543-558 | The pending separator is new to the parent and `left` sits at its slot, so the assertions of the inner insert hold. |
| `Forest.InnerInsertKeepsInv` | src/core/btree.cpp:128-138 | A parent with room takes the pending entry and the whole-tree invariant is restored. |
| `Forest.InnerSplitKeepsInv` | src/core/btree.cpp:140-176 | Splitting a full parent turns the pending pair into one pending pair a level higher; every child names the half that holds it. |
| `Forest.NewRootKeepsInv` | src/core/btree.cpp:182-197 | A new root above the pending pair restores the whole-tree invariant. |
| `Protocol.NextKeepsInv` | src/core/btree.cpp:100-197 | Every step of the insert protocol keeps the whole-tree invariant, with at most one split pending. |
| `Protocol.RunKeepsInv` | src/core/btree.cpp:91-200 | Every stage of every run from the empty tree satisfies the invariant. |
| `TreeState.PutStands` | src/core/btree.cpp:100-109 | Putting a cell into a leaf with room adds its row and keeps the invariant, the counts and the root bytes. |
| `TreeState.CutStands` | src/core/btree.cpp:111-122 | Splitting a full leaf adds the row and keeps all of that, with one split pending. |
| `TreeState.TakeStands` | src/core/btree.cpp:128-138 | A parent that takes the entry keeps the rows, the counts and the root bytes and ends the pending split. |
| `TreeState.PushStands` | src/core/btree.cpp:140-176 | Splitting the parent keeps them and leaves half of the load in force on the new page. |
| `TreeState.GrowStands` | src/core/btree.cpp:182-197 | A new root keeps the rows and the counts, moves the root byte and ends the pending split. |
| `Contents.UniqueOwner` | src/core/btree.h:750-750 | At each level at most one page's interval contains a key. |
| `Contents.OwnerHolds` | src/core/btree.cpp:208-242 | A cell is stored in the tree exactly if it is in the leaf whose interval contains its key. |
| `Contents.LeafSplitHolds` | src/core/btree.cpp:111-114 | Both halves of a split leaf together hold the old rows and the new one. |
| `Contents.DescentStep` | src/core/btree.cpp:218-231 | The slot chosen from the predecessor position leads to the child whose interval contains the key. |
| `Growth.InnerSplitNeed` | src/core/btree.cpp:140-176 | Each round of the climb that splits uses up one of the pages counted in advance. |
| `BPlusTree.LeafLoadMeans` | src/core/btree.cpp:103-103 | The leaf load in force is never above the requested one or the room of a page, and is reached at the requested number or at an even number with no room for two more. |
| `BPlusTree.InnerLoadMeans` | src/core/btree.cpp:126-126 | The same for inner pages, which have room for 338 separators. |
| `BPlusTree.BPlusTree.Create` | src/core/btree.cpp:37-51 | In mode `c` a new tree is one empty root leaf that satisfies the invariant and holds no row. |
| `BPlusTree.BPlusTree.Open` | src/core/btree.cpp:52-63 | In mode `o` a file whose pages carry a tree gives that tree: the invariant holds, the pages and rows are the same, and the root page has its root byte set. |
| `BPlusTree.BPlusTree.Find` | src/core/btree.cpp:208-242 | Returns the leaf whose interval contains the key and the number of smaller keys in it; reports existence exactly if the key is in the map, and then that cell is its row. |
| `Paths.OwnsBySeparators` | src/core/btree.cpp:217-231 | A page's interval contains a key exactly if every separator on the path from the root leads a search for the key there. |
| `BPlusTree.BPlusTree.LinkHalves` | src/core/btree.cpp:146-161 | The three-way comparison links left and right to the half that holds each, and touches no other page. |
| `BPlusTree.BPlusTree.RelinkChildren` | src/core/btree.cpp:163-170 | Exactly the children of the new page get it as parent; all else stays. |
| `BPlusTree.SplitResult` | src/core/btree.cpp:144-170 | Cutting, three-way linking and relinking together leave every child of both halves with the right parent and change no other parent. |
| `BPlusTree.BPlusTree.PushSplit` | src/core/btree.cpp:140-176 | A round on a full parent ends with the invariant for the pending pair one level up, with one page more and less left to climb. |
| `BPlusTree.BPlusTree.UpdateRoot` | src/core/btree.cpp:77-88 | Moves the root byte from the old root to the new one, which gets no parent; the cached root page is the one named by the root id. |
| `BPlusTree.BPlusTree.Propagate` | src/core/btree.cpp:117-197 | The climbing loop ends, in a parent with room or a new root, with the full invariant and the exact page count computed before it. |
| `BPlusTree.BPlusTree.AddRow` | src/core/btree.cpp:100-199 | Inserting into the owning leaf, full or not, adds exactly that row to the map, restores the invariant and allocates exactly the pages counted before. |
| `BPlusTree.BPlusTree.FillsMeans` | src/core/btree.cpp:102-128 | A page of a tree is at its load exactly if it holds the requested number of keys, or as many as fit in 4096 bytes. |
| `BPlusTree.BPlusTree.ClimbMeans` | src/core/btree.cpp:123-197 | The climb allocates one page for each full page above and one for a new root, full meaning the requested or the largest possible number of separators. |
| `BPlusTree.BPlusTree.Insert` | src/core/btree.cpp:91-200 | Refines map insertion: fails exactly for a present key with every page unchanged, otherwise adds the row, keeps the invariant and allocates exactly the pages the full path needs. A page is made exactly if the leaf is full, two exactly if the page above is full or missing; if an inner page was split, a page with half of the load in force is left. |
| `TreeFacts.LeafFacts` | src/core/btree.cpp:91-200 | Every leaf has strictly increasing keys and rows of the row size, at most the requested number of cells and as many as fit, and at least half of that unless it is the root. |
| `TreeFacts.InnerFacts` | src/core/btree.cpp:91-200 | Every inner page has strictly increasing separators, at most the requested number and 338, at least half of that unless it is the root, and its children name it as parent. |
| `TreeFacts.LinkFacts` | src/core/btree.cpp:91-206 | There are at most 1000 pages; the root has no parent, every other page is a child of the page it names. |
| `RangeVisit.WalkDone` | src/core/btree.cpp:312-333 | The children in the window yield all cells in range of the whole page, once and in order, and all pages whose interval meets the range, in post-order; nothing lies outside the window. |
| `BPlusTree.BPlusTree.ChildWindow` | src/core/btree.cpp:314-323 | The two scans bound exactly the children whose separator interval meets the range, with i <= j + 1. |
| `BPlusTree.BPlusTree.PostOrderVisit` | src/core/btree.cpp:294-353 | The pruned walk logs exactly the cells in range below a page, once each in ascending order, and every inner page whose interval meets the range, once each and children before parents. |
| `BPlusTree.BPlusTree.SelectCell` | src/core/btree.cpp:413-419 | Returns exactly the rows with min <= key <= max, each once, in strictly ascending key order. |
| `BPlusTree.BPlusTree.IsKeyMonotonicIncreasing` | src/core/btree.h:112-118 | Accepts exactly the pages with strictly increasing keys. |
| `BPlusTree.BPlusTree.CheckInner` | src/core/btree.cpp:364-404 | On a sound tree an inner page other than the root draws "root not set" for a stray root byte, otherwise the load complaint for less than half the requested load; nothing else is complained of. |
| `BPlusTree.BPlusTree.CheckValid` | src/core/btree.cpp:355-411 | Returns true exactly if every inner page but the root has no root byte and half the requested load; otherwise throws the error of the first page in visiting order that does not. |
| `BPlusTree.BPlusTree.AllPass` | src/core/btree.cpp:355-411 | With zeroed fresh pages and a load that fits the page every page of a valid tree passes. |
| `Checker.StrayRootByte` | src/core/btree.cpp:370-378 | Setting the root byte of any other inner page keeps the tree invariant and fails the check. |
| `Checker.LeafByteIgnored` | src/core/btree.cpp:409-409 | The root byte of a leaf changes no page's verdict. |
| `Checker.HalvesStayBehind` | src/core/btree.cpp:380-381 | A right half with less than half of the requested load still fails the check when the climb has ended, in a parent with room or under a new root. |
| `Runs.InsertAndCheck` | src/core/btree.cpp:380-381 | With a requested load above the page capacity, `check_valid` throws after every insert that splits an inner page. |
| `Checker.StrayExample` | src/core/btree.cpp:370-378 | Inserting 1 to 7 into an empty tree, with a root byte set in one fresh page, reaches a seven-page tree that fails the check. |
| `Paths.PathExists` | src/core/btree.cpp:91-200 | Every allocated page is reachable from the root by child links. |
| `Paths.PathUnique` | src/core/btree.cpp:91-200 | There is only one path from the root to a page. |
| `Paths.LeavesLevel` | src/core/btree.cpp:91-200 | All leaves lie at one depth. |
| `Paths.SubtreesSplit` | src/core/btree.h:750-750 | All keys in the subtrees left of a separator are at most it, all keys in the subtrees right of it larger. |
| `Separators.SeparatorIsMaximum` | src/core/btree.h:387-387 | Each separator is a stored key, the last of a leaf on a path below the child left of it; no key on any path below that child is larger. |
| `Separators.MaximumIsSeparator` | src/core/btree.h:387-387 | The largest key of every leaf but the rightmost is a separator. |
| `Separators.SeparatorOnce` | src/core/btree.h:655-660 | No key is a separator twice. |
| `Separators.DescentPath` | src/core/btree.cpp:217-231 | The pages a search passes go down by child links, one level at a time, to a leaf, and each names the one before as parent, so the climb retraces the descent. |
| `Tally.InnerSplitTallied` | src/core/btree.cpp:140-176 | Splits keep the leaves at one more than the separators (two more while a split is pending) and the cells at the number of rows. |
| `Bounds.SpaceBound` | src/core/btree.cpp:91-200 | A tree of N rows has one page or at most 4N/L - 1. |
| `Bounds.CapacityBound` | src/core/parameters.h:6-6 | Below 250L rows an insert into any leaf stays within `TABLE_MAX_PAGES`. |
| `Bounds.HeightBound` | src/core/btree.cpp:91-200 | A tree of height h >= 1 holds at least 2 (M/2 + 1)^(h-1) L/2 rows. |
| `TreeFacts.TreeSize` | src/core/btree.cpp:91-200 | For an even requested leaf load L that fits, a tree of N rows has one page or at most 4N/L - 1. |
| `TreeFacts.TreeHeight` | src/core/btree.cpp:91-200 | For requested loads that fit, a tree whose leaves lie h >= 1 levels down has at least 2 (M/2 + 1)^(h-1) L/2 rows. |
| `Runs.HasRoom` | src/core/dbfile.cpp:266-281 | Decides whether the pages an insert allocates fit in the page table: one per full page from the leaf up, and one for a new root. |
| `Runs.RoomBelow250` | src/core/dbfile.cpp:266-281 | Below 250L rows the page table has room for every insert, although allocation does not check it. |
| `Runs.InsertAll` | src/core/btree.cpp:91-200 | Any run of inserts, up to the first one the page table has no room for, keeps the tree valid and leaves the first row of every key; up to 250L distinct keys it goes to the end. |
| `Runs.FirstWinsRow` | src/core/btree.cpp:96-98 | A new key gets the row of its first occurrence in the run. |
| `Runs.BuildAndSelect` | src/core/btree.cpp:413-419 | A full select after any run from an empty tree is the key-ordered listing of the first rows of the part that had room, all of it up to 250L distinct keys. |
| `Runs.PermutedListing` | src/core/btree.cpp:91-200 | Permuting a run with distinct keys changes neither the rows nor their listing. |
| `Runs.BuildAndCheck` | src/core/btree.cpp:355-411 | After any run of inserts, as far as there is room, with zeroed fresh pages and a load that fits, `check_valid` returns true. |
| `Disk.ReadBuffer` | src/core/dbfile.cpp:116-139 | Fills the buffer with the bytes at the position, up to its size or the end of the file, whatever the single reads return. |
| `Disk.WriteBuffer` | src/core/dbfile.cpp:141-162 | Writes the whole buffer at the position, whatever the single writes return. |
| `Disk.EncodeDigit` | src/core/dbfile.cpp:164-182 | Byte i of an encoded number is its digit of weight 256^i. |
| `PageFile.PersistedLayout` | src/core/dbfile.cpp:164-182 | In a closed file bytes 0 to 7 are the root id, bytes 8 to 15 the page count, least significant byte first, and page p is bytes 16 + 4096 p to 16 + 4096 (p + 1). |
| `PageFile.HeaderFields` | src/core/dbfile.cpp:164-182 | The root id and the page count survive the header's byte encoding. |
| `PageFile.RegionsApart` | src/core/dbfile.cpp:249-249 | Page regions overlap neither each other nor the header. |
| `PageFile.BTreePager.Create` | src/core/dbfile.cpp:185-217 | A new pager truncates the file and stands for no pages. |
| `PageFile.BTreePager.Open` | src/core/dbfile.cpp:185-217 | Opening a persisted file gives the pages and the root id it was closed with. |
| `PageFile.BTreePager.GetPage` | src/core/dbfile.cpp:230-264 | Returns a buffer with the page's bytes, from the cache or all of it from disk; the array of pages is unchanged. |
| `PageFile.BTreePager.AllocatePage` | src/core/dbfile.cpp:266-281 | Appends one page with arbitrary bytes and writes the header with the new count, which disturbs no page. |
| `PageFile.BTreePager.Sync` | src/core/dbfile.cpp:283-302 | The page is on disk with its current bytes, and no other page or the header changes. |
| `PageFile.BTreePager.FlushPage` | src/core/dbfile.cpp:304-311 | The page leaves the cache and the array of pages is unchanged. |
| `PageFile.BTreePager.Poke` | src/core/dbfile.cpp:230-264 | A write through the cached page sets that byte; every other byte and every other page stay. |
| `PageFile.BTreePager.Close` | src/core/dbfile.cpp:219-228 | The file holds the header and every page in full, cached or not, page p at byte 16 + 4096 p. |
| `PageFile.Session` | src/core/dbfile.cpp:219-311 | Any interleaving of allocate, get, write, sync, flush and set-root acts on a plain array, a write changing one byte of one page; closing leaves a file that holds the last state. |
| `PageFile.RunAndReopen` | src/core/dbfile.cpp:185-311 | Over any sessions from a new file, each starts with the array and the root id that the one before ended with. |
| `PageCodec.SlotsApart` | src/core/btree.h:486-504 | Key and child slots follow each other without gap or overlap. |
| `PageCodec.WriteKeySlot` | src/core/btree.h:481-493 | Writing one separator's bytes changes that separator and no other separator or child. |
| `PageCodec.WriteChildSlot` | src/core/btree.h:495-504 | Writing one child's bytes changes that child and no other child or separator. |
| `PageCodec.WriteCellSlot` | src/core/btree.h:246-275 | Writing one cell's key and row bytes changes that cell and no other. |
| `PageCodec.CapacitiesFit` | src/core/btree.h:452-454 | Full pages of either kind fit in 4096 bytes, and two more entries would not. |
| `PageCodec.ShowsOne` | src/core/btree.cpp:13-34 | The bytes of a page determine its node. |
| `PageCodec.EncodeShows` | src/core/btree.h:22-31 | Every node that fits in a page has bytes that carry it: type tag, root byte, parent, count and all slots read back; byte 0 is 1 for a leaf and 0 for an inner node. |
| `PageCodec.EncodeLayout` | src/core/btree.h:16-175 | The offsets in a page: tag 0, root byte 1, parent 2, count 10, row size 14; cell i of a leaf at 18 + i (4 + rowSize), key before row; child i of an inner node at 14 + 12 i, separator i at 22 + 12 i. |
| `NodePage.Page.Load` | src/core/btree.cpp:13-34 | A page built from bytes that carry a node is that node. |
| `TreePager.LoadPages` | src/core/dbfile.cpp:230-264 | Reading all pages of an opened file gives the nodes they carry, in order, and leaves the file's pages alone. |
| `TreeStore.NodeFits` | src/core/btree.h:33-64 | Every page of a tree fits in the bytes of a page: its parent and child ids, its count and its rows. |
| `TreeStore.Save` | src/core/dbfile.cpp:219-228 | Closing leaves a file whose pages carry the nodes of the tree under its root id, every byte of header, tags, parents, counts and entries at its offset. |
| `TreeStore.SaveAndOpen` | src/core/btree.cpp:37-63 | A tree that is closed and opened again has the same pages, the same root and the same rows. |
| `TreeStore.Session` | src/core/btree.cpp:37-63 | Opening a file, inserting a batch as far as there is room and closing leaves a file with the first row of every key. |
| `TreeStore.Sessions` | src/core/btree.cpp:37-63 | Over any sessions on a new file, a full select lists the first row of every key that was kept, which up to 250L distinct keys is every key. |
| `TableFile.PageFull` | src/core/table.h:22-26 | A page takes as many rows as fit in 4096 bytes. |
| `TableFile.NextRow` | src/core/table.cpp:61-70 | A row starts right behind the one before if the page has room for it, otherwise at the start of the next page. |
| `TableFile.RowPlace` | src/core/table.cpp:61-70 | With n rows to a page, row i is at offset (i mod n) rowSize of page i / n, and there is room for 1000 n rows. |
| `TableFile.RoomLeft` | src/core/table.h:28-28 | There is room for a row exactly if it starts in one of the first 1000 pages. |
| `TableFile.RowCountRecovered` | src/core/table.cpp:11-21 | The row count computed from the file length is the number of rows the file was written with. |
| `TableFile.RemainderIsRows` | src/core/table.cpp:18-18 | The bytes behind the last full page are a whole number of rows, so the assertion holds. |
| `TableFile.FileHoldsOne` | src/core/table.cpp:7-22 | A file determines its rows. |
| `TableFile.RowOrder` | src/core/table.cpp:61-70 | Slots of different rows do not overlap. |
| `TableFile.DbFile.GetPage` | src/core/dbfile.cpp:42-81 | A first use loads what the file has of the page; other cached pages stay. |
| `TableFile.DbFile.FlushPage` | src/core/dbfile.cpp:83-105 | Writes the given number of bytes at the page's place and drops the page; an uncached page is left alone. |
| `TableFile.Table.constructor` | src/core/table.cpp:7-22 | Opening a row file recovers its rows and their number. |
| `TableFile.Table.GetRowSlot` | src/core/table.cpp:48-71 | The slot of a stored row holds its bytes; loading its page changes no row. |
| `TableFile.Table.Append` | src/core/command.cpp:63-76 | Adds the row behind the last one and changes no other, or reports a full table, exactly if the row would start behind the 1000th page. |
| `TableFile.Table.ReadRow` | src/core/command.cpp:19-33 | Reading through a slot gives the row. |
| `TableFile.Table.Close` | src/core/table.cpp:24-46 | The file holds all rows and ends with the last one, also when only touched pages were loaded. |
| `TableFile.Sessions` | src/core/table.cpp:7-71 | After any sessions of open, append and close, opening gives all rows there was room for, in order. |

## Left out

- One class `Page` stands for the two node classes and their virtual calls; the buffer's slots are arrays of cells, keys and children. The byte layout is treated in `PageCodec`, for whole pages and for single slot writes; the loops of `btree.h` are not carried out on bytes.
- A tree works on page objects. They are decoded from the bytes of the file when it is opened and encoded when it is closed, all at once; the program works in the page bytes and reads a page on first use. Flushing pages of a tree while it is open is modelled for `PageFile` alone.
- Bytes of a closed tree file that no node uses are zero and a set root byte is 1; in the program they are what memory held.
- The callbacks of `post_order_visit` are two logs, of inner (and non-empty leaf) pages and of cells; `CheckValid` applies its checks to the first log in order. The pages a walk visits do not depend on the callbacks.
- `CheckValid` is described on trees that satisfy the invariant. It looks at direct children only, so accepting a page sequence does not imply the invariant.
- Inserts beyond the page table: `Insert` requires room. What the program does when it writes behind its table of pages is not modelled.
- Loads that are odd or zero, which stop the program in `set_node_load`, and changing the loads between openings.
- Destroying an empty `Table` indexes page -1; `Table.Close` requires a row. Row sizes of 0 or above a page, for which a page holds no row, are outside `RowSize`.
- Re-reading a `DbFile` page after flushing it. Its page count is that of the file when it was opened; only the flush at close is used.
- Page ids outside the allocated range, on which `get_page` ends the program, and failing system calls.
- Crash consistency: the root id reaches the file only with the next header write.
- Command parsing, the prompt, printing, the singletons and the text form of `UserInfo`; a row is a byte sequence of the row size.
- Deletion and sibling links: the program has none.
