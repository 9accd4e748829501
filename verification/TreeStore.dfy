/** Closing a tree writes its pages through the page cache; opening the file gives the tree back. */
module TreeStore {
  import opened PageModel
  import opened Disk
  import opened Forest
  import opened Contents
  import opened TreeState
  import opened BPlusTree
  import opened Runs
  import PageCodec
  import PageFile

  /** Page ids and the mark of a missing parent fit in eight bytes. */
  lemma Limit8()
    ensures NODE_PARENT_INVALID < Limit(CHILD_SIZE)
  {
    PageCodec.Limit4();
    assert Limit(6) == 65536 * Limit(4);
    assert Limit(8) == 65536 * Limit(6);
  }

  /** Bytes of a page with everything at its offset, from which the node can be loaded. */
  ghost predicate Written(bytes: seq<Byte>, n: Node, rowSize: nat) {
    PageCodec.Loadable(bytes, n, rowSize) && PageCodec.Layout(bytes, n, rowSize)
  }

  /** The bytes of the file: root id and page count, least significant byte first, then a page for every node. */
  ghost predicate FileLayout(data: seq<Byte>, rootPid: nat, nodes: seq<Node>, rowSize: nat) {
    && |data| >= 16 + 4096 * |nodes|
    && (forall i :: 0 <= i < 8 ==> data[i] == rootPid / Limit(i) % 256)
    && (forall i :: 0 <= i < 8 ==> data[8 + i] == |nodes| / Limit(i) % 256)
    && (forall p :: 0 <= p < |nodes| ==> PageCodec.Layout(data[16 + 4096 * p..16 + 4096 * (p + 1)], nodes[p], rowSize))
  }

  lemma SavedLayout(data: seq<Byte>, rootPid: nat, saved: seq<seq<Byte>>, nodes: seq<Node>, rowSize: nat)
    requires PageFile.Persisted(data, rootPid, saved) && |saved| == |nodes|
    requires forall p :: 0 <= p < |nodes| ==> Written(saved[p], nodes[p], rowSize)
    ensures PageCodec.Carries(saved, nodes, rowSize) && FileLayout(data, rootPid, nodes, rowSize)
  {
    PageFile.PersistedLayout(data, rootPid, saved);
    forall p | 0 <= p < |nodes|
      ensures PageCodec.Layout(data[16 + 4096 * p..16 + 4096 * (p + 1)], nodes[p], rowSize)
    {
      assert Written(saved[p], nodes[p], rowSize);
    }
  }

  /** Every page of a tree fits in the bytes of a page. */
  lemma NodeFits(f: Forest, rows: map<Key, Row>, terms: Terms, p: nat)
    requires Standing(f, Settled, rows, terms) && p < |f.nodes|
    requires 0 < terms.ld.leaf <= LeafCapacity(terms.rowSize) && terms.ld.inner <= INNER_CAPACITY
    ensures PageCodec.Fits(f.nodes[p], terms.rowSize)
  {
    Limit8();
    PageCodec.Limit4();
    assert PageOk(f, Settled, terms.ld, p) && (p != f.root ==> Linked(f, p));
    match f.nodes[p]
    case Leaf(_, _, cells) =>
      forall i | 0 <= i < |cells| ensures |cells[i].row| == terms.rowSize {
        assert HasCell(f.nodes, p, cells[i]);
        assert Stored(f.nodes, cells[i]);
      }
    case Inner(_, _, keys, kids) =>
      forall i | 0 <= i < |kids| ensures kids[i] < Limit(CHILD_SIZE) {
        assert ParentIs(f, kids[i], p);
      }
  }

  /** The bytes written for a page of a tree can be loaded again. */
  lemma NodeLoads(f: Forest, rows: map<Key, Row>, terms: Terms, p: nat)
    requires Standing(f, Settled, rows, terms) && p < |f.nodes|
    requires 0 < terms.ld.leaf <= LeafCapacity(terms.rowSize) && terms.ld.inner <= INNER_CAPACITY
    ensures PageCodec.Fits(f.nodes[p], terms.rowSize)
    ensures Written(PageCodec.EncodeNode(f.nodes[p], terms.rowSize), f.nodes[p], terms.rowSize)
  {
    NodeFits(f, rows, terms, p);
    PageCodec.EncodeShows(f.nodes[p], terms.rowSize);
    PageCodec.EncodeLayout(f.nodes[p], terms.rowSize);
  }

  /** The bytes of a page of the tree. */
  function PageBytes(t: BPlusTree, p: nat): (bytes: seq<Byte>)
    requires t.Valid() && p < |t.pager.pages|
    reads t, t.pager, t.pager.Repr
    ensures p < |t.pager.view| && Written(bytes, t.pager.view[p], t.rowSize)
  {
    NodeLoads(t.State(), t.rows, t.Fixed(), p);
    assert t.pager.PageIn(p);
    PageCodec.EncodeNode(t.pager.pages[p].Val(), t.rowSize)
  }

  /** The bytes of all pages of the tree. */
  method TreeBytes(t: BPlusTree) returns (all: seq<seq<Byte>>)
    requires t.Valid()
    ensures |all| == |t.pager.view| && forall p :: 0 <= p < |all| ==> Written(all[p], t.pager.view[p], t.rowSize)
  {
    all := [];
    for p := 0 to |t.pager.pages|
      invariant |all| == p && forall q :: 0 <= q < p ==> Written(all[q], t.pager.view[q], t.rowSize)
    {
      all := all + [PageBytes(t, p)];
    }
  }

  /** Writes a page, allocating it when it is new. */
  method WritePage(store: PageFile.BTreePager, p: nat, bytes: seq<Byte>)
    requires store.Valid() && p <= |store.contents| && p < TABLE_MAX_PAGES && |bytes| == PAGE_SIZE
    modifies store, store.file, store.pages, store.Repr
    ensures store.Valid() && fresh(store.Repr - old(store.Repr)) && p < |store.contents|
    ensures |store.contents| == if p == old(|store.contents|) then p + 1 else old(|store.contents|)
    ensures store.contents[p] == bytes && forall q :: 0 <= q < p ==> store.contents[q] == old(store.contents)[q]
  {
    if p == store.numPages {
      var _, _ := store.AllocatePage();
    }
    store.Fill(p, bytes);
  }

  /** Writes all pages and the root id, and closes the file. */
  method SavePages(store: PageFile.BTreePager, all: seq<seq<Byte>>, rootPid: nat)
    requires store.Valid() && |store.contents| <= |all| <= TABLE_MAX_PAGES && rootPid < Limit(CHILD_SIZE)
    requires forall p :: 0 <= p < |all| ==> |all[p]| == PAGE_SIZE
    modifies store, store.file, store.pages, store.Repr
    ensures PageFile.Persisted(store.file.data, rootPid, all)
  {
    for p := 0 to |all|
      invariant store.Valid() && fresh(store.Repr - old(store.Repr)) && p <= |store.contents| <= |all|
      invariant forall q :: 0 <= q < p ==> store.contents[q] == all[q]
    {
      WritePage(store, p, all[p]);
    }
    assert store.contents == all;
    store.SetRootPage(rootPid);
    store.Close();
  }

  /** Closes the tree: afterwards the file holds its pages and its root id. */
  method Save(t: BPlusTree, store: PageFile.BTreePager) returns (ghost saved: seq<seq<Byte>>)
    requires t.Valid() && store.Valid() && |store.contents| <= |t.pager.view|
    modifies store, store.file, store.pages, store.Repr
    ensures PageCodec.Carries(saved, old(t.pager.view), t.rowSize)
    ensures PageFile.Persisted(store.file.data, old(t.pager.rootPid), saved)
    ensures FileLayout(store.file.data, old(t.pager.rootPid), old(t.pager.view), t.rowSize)
  {
    ghost var nodes := t.pager.view;
    var all := TreeBytes(t);
    var rootPid, rowSize := t.pager.rootPid, t.rowSize;
    Limit8();
    SavePages(store, all, rootPid);
    saved := all;
    SavedLayout(store.file.data, rootPid, saved, nodes, rowSize);
  }

  /** A tree that is closed and opened again has the same pages and the same rows. */
  method SaveAndOpen(t: BPlusTree, store: PageFile.BTreePager) returns (reopened: BPlusTree)
    requires t.Valid() && store.Valid() && |store.contents| <= |t.pager.view|
    modifies store, store.file, store.pages, store.Repr
    ensures reopened.Valid() && reopened.State() == old(t.State()) && reopened.rows == old(t.rows)
  {
    ghost var f, rows := t.State(), t.rows;
    var rootPid, zeroed := t.pager.rootPid, t.pager.zeroed;
    ghost var saved := Save(t, store);
    var again := new PageFile.BTreePager.Open(store.file, rootPid, saved);
    reopened := new BPlusTree.Open(again, t.rowSize, t.leafLoad, t.innerLoad, zeroed, f, rows);
  }

  /** The file holds a tree with these rows. */
  ghost predicate Holding(data: seq<Byte>, saved: seq<seq<Byte>>, g: Forest, rows: map<Key, Row>, terms: Terms) {
    && PageFile.Persisted(data, g.root, saved) && PageCodec.Carries(saved, g.nodes, terms.rowSize)
    && Standing(g, Settled, rows, terms)
  }

  /** A new file with an empty tree. */
  method NewFile(f: File, rowSize: nat, leafLoad: nat, innerLoad: nat, zeroed: bool)
      returns (ghost saved: seq<seq<Byte>>, ghost g: Forest)
    requires GoodLoads(LoadsInForce(rowSize, leafLoad, innerLoad))
    modifies f
    ensures Holding(f.data, saved, g, map[], Terms(LoadsInForce(rowSize, leafLoad, innerLoad), rowSize, zeroed))
  {
    var store := new PageFile.BTreePager.Create(f);
    var t := new BPlusTree.Create(rowSize, leafLoad, innerLoad, zeroed);
    g := t.State();
    saved := Save(t, store);
  }

  /** Inserts a batch as far as there is room, then closes the tree. */
  method InsertAndSave(t: BPlusTree, store: PageFile.BTreePager, batch: seq<Cell>)
      returns (n: nat, ghost saved: seq<seq<Byte>>, ghost g: Forest)
    requires t.Valid() && store.Valid() && |store.contents| <= |t.pager.view|
    requires forall c :: c in batch ==> |c.row| == t.rowSize
    requires t.ApartFrom(store)
    modifies t, t.pager.Repr, store, store.file, store.pages, store.Repr
    ensures n <= |batch| && (|FirstWins(old(t.rows), batch)| <= 250 * t.EffectiveLoads().leaf ==> n == |batch|)
    ensures Holding(store.file.data, saved, g, FirstWins(old(t.rows), batch[..n]), old(t.Fixed()))
  {
    ghost var terms := t.Fixed();
    n := InsertAll(t, batch);
    g := t.State();
    assert Standing(g, Settled, t.rows, terms);
    saved := Save(t, store);
  }

  /** One session: open the tree, insert a batch as far as there is room, close it. */
  method Session(f: File, rowSize: nat, leafLoad: nat, innerLoad: nat, zeroed: bool, batch: seq<Cell>,
                 ghost before: seq<seq<Byte>>, ghost g: Forest, ghost rows: map<Key, Row>)
      returns (n: nat, ghost saved: seq<seq<Byte>>, ghost g': Forest)
    requires GoodLoads(LoadsInForce(rowSize, leafLoad, innerLoad)) && forall c :: c in batch ==> |c.row| == rowSize
    requires Holding(f.data, before, g, rows, Terms(LoadsInForce(rowSize, leafLoad, innerLoad), rowSize, zeroed))
    modifies f
    ensures n <= |batch|
    ensures |FirstWins(rows, batch)| <= 250 * LoadsInForce(rowSize, leafLoad, innerLoad).leaf ==> n == |batch|
    ensures Holding(f.data, saved, g', FirstWins(rows, batch[..n]),
                    Terms(LoadsInForce(rowSize, leafLoad, innerLoad), rowSize, zeroed))
  {
    var store := new PageFile.BTreePager.Open(f, g.root, before);
    var t := new BPlusTree.Open(store, rowSize, leafLoad, innerLoad, zeroed, g, rows);
    n, saved, g' := InsertAndSave(t, store, batch);
  }

  /** All batches, one after the other. */
  function Joined(batches: seq<seq<Cell>>): seq<Cell> {
    if |batches| == 0 then [] else Joined(batches[..|batches| - 1]) + batches[|batches| - 1]
  }

  /** The first `ns[i]` cells of every batch. */
  function Parts(batches: seq<seq<Cell>>, ns: seq<nat>): seq<Cell>
    requires |ns| == |batches| && forall i :: 0 <= i < |ns| ==> ns[i] <= |batches[i]|
  {
    if |batches| == 0 then []
    else
      var last := |batches| - 1;
      Parts(batches[..last], ns[..last]) + batches[last][..ns[last]]
  }

  /** `kept` is the first `ns[j]` cells of each of the first `i` batches, and all of them within the row bound. */
  ghost predicate Keeps(batches: seq<seq<Cell>>, i: nat, ns: seq<nat>, kept: seq<Cell>, bound: nat) {
    && |ns| == i <= |batches| && (forall j :: 0 <= j < i ==> ns[j] <= |batches[j]|)
    && kept == Parts(batches[..i], ns)
    && (|FirstWins(map[], Joined(batches))| <= bound ==> kept == Joined(batches[..i]))
  }

  lemma PartsGrow(batches: seq<seq<Cell>>, i: nat, ns: seq<nat>, n: nat)
    requires |ns| == i < |batches| && (forall j :: 0 <= j < i ==> ns[j] <= |batches[j]|) && n <= |batches[i]|
    ensures Parts(batches[..i + 1], ns + [n]) == Parts(batches[..i], ns) + batches[i][..n]
  {
    assert batches[..i + 1][..i] == batches[..i] && (ns + [n])[..i] == ns;
  }

  /** A session adds what it keeps of its batch. */
  lemma SessionKeeps(batches: seq<seq<Cell>>, i: nat, ns: seq<nat>, kept: seq<Cell>, n: nat, bound: nat)
    requires Keeps(batches, i, ns, kept, bound) && i < |batches| && n <= |batches[i]|
    requires |FirstWins(FirstWins(map[], kept), batches[i])| <= bound ==> n == |batches[i]|
    ensures FirstWins(FirstWins(map[], kept), batches[i][..n]) == FirstWins(map[], kept + batches[i][..n])
    ensures Keeps(batches, i + 1, ns + [n], kept + batches[i][..n], bound)
  {
    FirstWinsTwice(map[], kept, batches[i][..n]);
    PartsGrow(batches, i, ns, n);
    if |FirstWins(map[], Joined(batches))| <= bound {
      FirstWinsTwice(map[], kept, batches[i]);
      assert batches[..i + 1][..i] == batches[..i];
      JoinedPrefix(batches, i + 1);
      FirstWinsGrows(map[], Joined(batches), |Joined(batches[..i + 1])|);
      assert batches[i][..|batches[i]|] == batches[i];
    }
  }

  lemma {:induction false} JoinedPrefix(batches: seq<seq<Cell>>, i: nat)
    requires i <= |batches|
    ensures |Joined(batches[..i])| <= |Joined(batches)|
    ensures Joined(batches)[..|Joined(batches[..i])|] == Joined(batches[..i])
  {
    if i < |batches| {
      JoinedPrefix(batches[..|batches| - 1], i);
      assert batches[..|batches| - 1][..i] == batches[..i];
    } else {
      assert batches[..i] == batches;
    }
  }

  /** Over any sessions on a new file a full select at the end lists the first row of every key that was kept. */
  method Sessions(f: File, rowSize: nat, leafLoad: nat, innerLoad: nat, zeroed: bool, batches: seq<seq<Cell>>)
      returns (cells: seq<Cell>, ns: seq<nat>, ghost kept: seq<Cell>)
    requires GoodLoads(LoadsInForce(rowSize, leafLoad, innerLoad))
    requires forall i, c :: 0 <= i < |batches| && c in batches[i] ==> |c.row| == rowSize
    modifies f
    ensures IsListing(cells, FirstWins(map[], kept))
    ensures Keeps(batches, |batches|, ns, kept, 250 * LoadsInForce(rowSize, leafLoad, innerLoad).leaf)
  {
    ghost var terms := Terms(LoadsInForce(rowSize, leafLoad, innerLoad), rowSize, zeroed);
    ghost var saved, g := NewFile(f, rowSize, leafLoad, innerLoad, zeroed);
    kept, ns := [], [];
    assert batches[..0] == [];
    for i := 0 to |batches|
      invariant Holding(f.data, saved, g, FirstWins(map[], kept), terms)
      invariant Keeps(batches, i, ns, kept, 250 * terms.ld.leaf)
    {
      ghost var rows := FirstWins(map[], kept);
      var n;
      n, saved, g := Session(f, rowSize, leafLoad, innerLoad, zeroed, batches[i], saved, g, rows);
      SessionKeeps(batches, i, ns, kept, n, 250 * terms.ld.leaf);
      kept, ns := kept + batches[i][..n], ns + [n];
    }
    cells := OpenAndSelect(f, rowSize, leafLoad, innerLoad, zeroed, saved, g, FirstWins(map[], kept));
  }

  /** Opens a file and selects everything. */
  method OpenAndSelect(f: File, rowSize: nat, leafLoad: nat, innerLoad: nat, zeroed: bool,
                       ghost saved: seq<seq<Byte>>, ghost g: Forest, ghost rows: map<Key, Row>)
      returns (cells: seq<Cell>)
    requires GoodLoads(LoadsInForce(rowSize, leafLoad, innerLoad))
    requires Holding(f.data, saved, g, rows, Terms(LoadsInForce(rowSize, leafLoad, innerLoad), rowSize, zeroed))
    modifies f`pos
    ensures IsListing(cells, rows)
  {
    var store := new PageFile.BTreePager.Open(f, g.root, saved);
    var t := new BPlusTree.Open(store, rowSize, leafLoad, innerLoad, zeroed, g, rows);
    cells := t.SelectCell(0, UINT32_MAX);
  }
}
