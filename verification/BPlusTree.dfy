/** The page-addressed B+ tree (src/core/btree.cpp). */
module BPlusTree {
  import opened PageModel
  import opened NodePage
  import opened TreePager
  import opened Forest
  import opened Contents
  import opened Growth
  import opened RangeVisit
  import opened Checker
  import opened Protocol
  import PageCodec
  import PageFile
  import opened TreeState

  datatype InsertStatus = SUCCESS | FAIL_DUPLICATE_KEY

  datatype KeyLocation = KeyLocation(pageId: nat, rowId: nat, isExist: bool)

  /** The runtime checker either returns or throws one of its complaints. */
  datatype CheckOutcome = Verdict(ok: bool) | Thrown(error: CheckError)

  datatype CheckError = RootNotSet | LoadOrOrder | NotLinked | SeparatorBroken

  /** A location names the leaf that owns the key, the number of smaller keys there, and whether the key is present. */
  ghost predicate Locates(f: Forest, loc: KeyLocation, key: Key) {
    && loc.pageId < |f.nodes| == |f.marks| && f.nodes[loc.pageId].Leaf? && Owns(f, loc.pageId, key)
    && LocatesRow(f.nodes[loc.pageId].cells, key, loc.rowId, loc.isExist)
  }

  ghost predicate LocatesRow(cells: seq<Cell>, key: Key, rowId: nat, isExist: bool) {
    && rowId <= |cells|
    && (forall i :: 0 <= i < rowId ==> cells[i].key < key)
    && (forall i :: rowId <= i < |cells| ==> key <= cells[i].key)
    && (isExist <==> rowId < |cells| && cells[rowId].key == key)
  }

  /** The loads that are in force: never more than a page has room for. */
  function LoadsInForce(rowSize: nat, leafLoad: nat, innerLoad: nat): Loads {
    Loads(Min(LeafCapacity(rowSize), leafLoad), Min(INNER_CAPACITY, innerLoad))
  }

  /**
   * What a leaf load in force means: never more cells than asked for and than fit in the 4078 bytes behind the header;
   * reached when the requested number is there, or an even number with no room for two more.
   */
  lemma LeafLoadMeans(rowSize: nat, leafLoad: nat, innerLoad: nat, n: nat)
    requires n <= LoadsInForce(rowSize, leafLoad, innerLoad).leaf
    ensures n <= leafLoad && n * (4 + rowSize) <= 4078
    ensures n == LoadsInForce(rowSize, leafLoad, innerLoad).leaf <==>
              n == leafLoad || (n % 2 == 0 && 4078 < (n + 2) * (4 + rowSize))
  {
    var c := LeafCapacity(rowSize);
    LeafCapacityFills(rowSize);
    MulMono(n, c, 4 + rowSize);
    if n % 2 == 0 && 4078 < (n + 2) * (4 + rowSize) {
      LeafCapacityIs(rowSize, n);
    }
  }

  lemma InnerLoadMeans(rowSize: nat, leafLoad: nat, innerLoad: nat, n: nat)
    requires n <= LoadsInForce(rowSize, leafLoad, innerLoad).inner
    ensures n <= innerLoad && n <= 338
    ensures n == LoadsInForce(rowSize, leafLoad, innerLoad).inner <==> n == innerLoad || n == 338
  {
  }

  /** Even loads are in force as far as a page has room, so they are allowed when two cells fit. */
  lemma LoadsAllowed(rowSize: nat, leafLoad: nat, innerLoad: nat)
    requires leafLoad >= 2 && leafLoad % 2 == 0 && innerLoad >= 2 && innerLoad % 2 == 0 && 2 * (4 + rowSize) <= 4078
    ensures GoodLoads(LoadsInForce(rowSize, leafLoad, innerLoad))
  {
    LeafCapacityFills(rowSize);
  }

  class BPlusTree {
    const pager: Pager
    const rowSize: nat
    const leafLoad: nat
    const innerLoad: nat
    var rootPage: Page
    ghost var marks: seq<Mark>
    ghost var rows: map<Key, Row>

    ghost function State(): Forest
      reads this, pager
    {
      Forest(pager.view, marks, pager.rootPid)
    }

    function EffectiveLoads(): Loads {
      LoadsInForce(rowSize, leafLoad, innerLoad)
    }

    /** The memory side of the invariant. */
    ghost predicate Sound()
      reads this, pager, pager.Repr
    {
      && pager.Valid() && this !in pager.Repr && pager.rowSize == rowSize
      && GoodLoads(EffectiveLoads())
      && pager.rootPid < |pager.pages| && rootPage == pager.pages[pager.rootPid]
    }

    ghost predicate RootFlags()
      reads this, pager
    {
      FlagsOk(pager.view, pager.rootPid, pager.zeroed)
    }

    ghost predicate Valid()
      reads this, pager, pager.Repr
    {
      Mid(Settled)
    }

    ghost function Fixed(): Terms
      reads this, pager
    {
      Terms(EffectiveLoads(), rowSize, pager.zeroed)
    }

    /** Memory is sound, and the pages are a tree with these rows but for at most one split on its way up. */
    ghost predicate Mid(pd: Pending)
      reads this, pager, pager.Repr
    {
      Sound() && Standing(State(), pd, rows, Fixed())
    }

    /** Memory is sound and the pages form a search tree. */
    ghost predicate Ordered(pd: Pending)
      reads this, pager, pager.Repr
    {
      Sound() && Inv(State(), pd, EffectiveLoads())
    }

    /** A new tree is one empty leaf, marked as root. */
    constructor Create(rowSize: nat, leafLoad: nat, innerLoad: nat, zeroed: bool)
      requires GoodLoads(LoadsInForce(rowSize, leafLoad, innerLoad))
      ensures Valid() && rows == map[] && fresh(pager.Repr)
      ensures this.rowSize == rowSize && this.leafLoad == leafLoad && this.innerLoad == innerLoad
              && pager.zeroed == zeroed
      ensures pager.view == [Leaf(true, NODE_PARENT_INVALID, [])]
    {
      var pg := new Pager(rowSize, zeroed);
      var pid := pg.AllocatePage();
      pg.LeafFormat(pid);
      pg.LinkTo(pid, NODE_PARENT_INVALID);
      pg.SetRootPage(pid);
      pg.SetRoot(pid, true);
      pager := pg;
      rootPage := pg.pages[pid];
      this.rowSize, this.leafLoad, this.innerLoad := rowSize, leafLoad, innerLoad;
      marks := [Mark(0, -1, UINT32_MAX)];
      rows := map[];
      new;
      assert pager.view == [Leaf(true, NODE_PARENT_INVALID, [])];
      assert State() == EMPTY_TREE;
      EmptyStands(Fixed());
    }

    /** Opens a file whose pages carry a tree. */
    constructor Open(store: PageFile.BTreePager, rowSize: nat, leafLoad: nat, innerLoad: nat, zeroed: bool,
                     ghost f: Forest, ghost held: map<Key, Row>)
      requires store.Valid() && PageCodec.Carries(store.contents, f.nodes, rowSize) && store.rootPid == f.root
      requires GoodLoads(LoadsInForce(rowSize, leafLoad, innerLoad))
      requires Standing(f, Settled, held, Terms(LoadsInForce(rowSize, leafLoad, innerLoad), rowSize, zeroed))
      modifies store`Repr, store.file`pos, store.pages
      ensures Valid() && State() == f && rows == held
      ensures this.rowSize == rowSize && this.leafLoad == leafLoad && this.innerLoad == innerLoad
              && pager.zeroed == zeroed
      ensures store.Valid() && store.contents == old(store.contents) && store.rootPid == old(store.rootPid)
      ensures fresh(store.Repr - old(store.Repr)) && fresh(pager.Repr) && ApartFrom(store)
    {
      var pg := LoadPages(store, rowSize, zeroed, f.nodes);
      pager := pg;
      rootPage := pg.pages[pg.rootPid];
      this.rowSize, this.leafLoad, this.innerLoad := rowSize, leafLoad, innerLoad;
      marks, rows := f.marks, held;
      new;
      assert State() == f;
      RootIsMarked();
      assert rootPage.isRoot;
    }

    /** The tree and an opened file share no memory. */
    ghost predicate ApartFrom(store: PageFile.BTreePager)
      reads this, pager, store
    {
      && this !in store.Repr && pager.Repr !! store.Repr
      && store !in pager.Repr && store.file !in pager.Repr && store.pages !in pager.Repr
    }

    lemma RootIsMarked()
      requires Sound() && FlagsOk(pager.view, pager.rootPid, pager.zeroed)
      ensures rootPage.isRoot
    {
      assert pager.PageIn(pager.rootPid);
    }

    /** One step of the descent: binary search for the child that owns `key`. */
    method NextPage(curr: Page, ghost pageId: nat, key: Key) returns (child: nat)
      requires Ordered(Settled) && pageId < |pager.pages| && curr == pager.pages[pageId] && curr.kind == InnerKind
      requires Owns(State(), pageId, key)
      ensures child < |pager.pages| && child != pager.rootPid && Owns(State(), child, key)
              && marks[child].level < marks[pageId].level
    {
      ghost var f, ld := State(), EffectiveLoads();
      assert pager.PageIn(pageId) && PageOk(f, Settled, ld, pageId);
      ghost var keys, kids := f.nodes[pageId].keys, f.nodes[pageId].kids;
      assert curr.Val() == f.nodes[pageId] && NodeKeys(curr.Val()) == keys;
      var pos := curr.SearchKeyPosition(key);
      var slot := if pos >= 0 && curr.GetKey(pos) == key then pos else pos + 1;
      assert slot == if pos >= 0 && keys[pos] == key then pos else pos + 1;
      DescentStep(f, ld, pageId, key, slot);
      child := curr.kids[slot];
      assert child == kids[slot];
    }

    /** Binary search in the leaf that owns `key`. */
    method LocateInLeaf(curr: Page, pageId: nat, key: Key) returns (loc: KeyLocation)
      requires Ordered(Settled) && pageId < |pager.pages| && curr == pager.pages[pageId] && curr.kind == LeafKind
               && curr.count > 0
      requires Owns(State(), pageId, key)
      ensures Locates(State(), loc, key)
    {
      assert pager.PageIn(pageId) && PageOk(State(), Settled, EffectiveLoads(), pageId);
      assert Sorted(KeysOf(State().nodes[pageId].cells));
      var pos := curr.SearchKeyPosition(key);
      if pos >= 0 && curr.GetKey(pos) == key {
        loc := KeyLocation(pageId, pos, true);
      } else {
        loc := KeyLocation(pageId, pos + 1, false);
      }
      RowLocation(State().nodes[pageId].cells, KeysOf(State().nodes[pageId].cells), key, pos);
    }

    /** Descends by binary search to the leaf that owns `key`. */
    method Find(key: Key) returns (loc: KeyLocation)
      requires Valid()
      ensures Locates(State(), loc, key)
      ensures loc.isExist <==> key in rows
      ensures loc.pageId < |pager.view| && pager.view[loc.pageId].Leaf? && loc.rowId <= |pager.view[loc.pageId].cells|
      ensures forall i :: 0 <= i < loc.rowId ==> pager.view[loc.pageId].cells[i].key < key
      ensures forall i :: loc.rowId <= i < |pager.view[loc.pageId].cells| ==> pager.view[loc.pageId].cells[i].key >= key
      ensures loc.isExist ==>
                && loc.rowId < |pager.view[loc.pageId].cells|
                && pager.view[loc.pageId].cells[loc.rowId] == Cell(key, rows[key])
    {
      ghost var f, ld := State(), EffectiveLoads();
      var pageId: nat := pager.rootPid;
      var curr := rootPage;
      assert PageOk(f, Settled, ld, pageId) && pager.PageIn(pageId);
      if curr.count == 0 {
        loc := KeyLocation(pageId, 0, false);
      } else {
        while curr.kind != LeafKind
          invariant pageId < |pager.pages| && curr == pager.pages[pageId]
          invariant Owns(f, pageId, key) && curr.count > 0
          decreases f.marks[pageId].level
        {
          pageId := NextPage(curr, pageId, key);
          curr := pager.pages[pageId];
          assert pager.PageIn(pageId) && PageOk(f, Settled, ld, pageId);
        }
        loc := LocateInLeaf(curr, pageId, key);
      }
      LocatedExists(f, ld, rows, loc, key);
    }

    /** A parent with room takes the entry; the new page is linked to it. */
    method InsertIntoParent(parent: nat, key: Key, left: nat, right: nat)
      requires Sound() && left < |pager.view| && right < |pager.view| && parent < |pager.view| && right != parent
      requires pager.view[left].parent == parent && pager.view[parent].Inner?
      requires 0 < |pager.view[parent].keys| < EffectiveLoads().inner
               && |pager.view[parent].kids| == |pager.view[parent].keys| + 1
      requires key !in pager.view[parent].keys && pager.view[parent].kids[Slot(pager.view[parent].keys, key)] == left
      modifies pager.Repr
      ensures Sound() && pager.Repr == old(pager.Repr) && pager.rootPid == old(pager.rootPid)
      ensures pager.view == AfterInnerInsert(old(State()), left, right, key).nodes
    {
      pager.InnerInsert(parent, EffectiveLoads().inner, key, left, right);
      assert pager.view[left].parent == parent;
      pager.LinkTo(right, parent);
    }

    /** The two children of the new entry are linked to the half that holds them. */
    method LinkHalves(parent: nat, newId: nat, key: Key, pivot: Key, left: nat, right: nat)
      requires Sound() && left < |pager.view| && right < |pager.view| && left != right
      modifies pager.Repr
      ensures Sound() && pager.Repr == old(pager.Repr) && pager.rootPid == old(pager.rootPid)
      ensures pager.view ==
              old(pager.view)[left := WithParent(old(pager.view)[left], if key <= pivot then parent else newId)]
                             [right := WithParent(old(pager.view)[right], if key < pivot then parent else newId)]
    {
      if key < pivot {
        pager.LinkTo(left, parent);
        pager.LinkTo(right, parent);
      } else if key > pivot {
        pager.LinkTo(left, newId);
        pager.LinkTo(right, newId);
      } else {
        pager.LinkTo(left, parent);
        pager.LinkTo(right, newId);
      }
    }

    /** Every child of the new inner page names it as parent; no other page changes. */
    method RelinkChildren(newId: nat)
      requires Sound() && newId < |pager.view| && pager.view[newId].Inner?
               && |pager.view[newId].kids| == |pager.view[newId].keys| + 1
      requires forall i :: 0 <= i < |pager.view[newId].kids| ==>
                 pager.view[newId].kids[i] < |pager.view| && pager.view[newId].kids[i] != newId
      modifies pager.Repr
      ensures Sound() && pager.Repr == old(pager.Repr) && pager.rootPid == old(pager.rootPid)
      ensures |pager.view| == old(|pager.view|)
      ensures forall x :: 0 <= x < |pager.view| ==>
                pager.view[x] ==
                if x in old(pager.view)[newId].kids then WithParent(old(pager.view)[x], newId) else old(pager.view)[x]
    {
      ghost var v := pager.view;
      ghost var kids := v[newId].kids;
      assert pager.PageIn(newId);
      var node := pager.pages[newId];
      var r := 0;
      while r <= node.count
        invariant Sound() && pager.Repr == old(pager.Repr) && pager.rootPid == old(pager.rootPid)
                  && pager.pages == old(pager.pages)
        invariant |pager.view| == |v| && pager.view[newId] == v[newId]
        invariant node.count + 1 == |kids| && r <= |kids|
        invariant forall x :: 0 <= x < |v| ==> pager.view[x] == if x in kids[..r] then WithParent(v[x], newId) else v[x]
        decreases |kids| - r
      {
        assert pager.PageIn(newId);
        assert node.kids[r] == kids[r];
        pager.LinkTo(node.kids[r], newId);
        assert kids[..r + 1] == kids[..r] + [kids[r]];
        assert pager.PageIn(newId);
        r := r + 1;
      }
      assert kids[..r] == kids;
    }

    /** A new page takes the upper half of a full inner page. */
    method CutParent(parent: nat, key: Key, left: nat, right: nat, ghost tk: seq<Key>, ghost tc: seq<nat>, ghost h: nat)
      returns (pivot: Key, newId: nat)
      requires Sound() && |pager.pages| < TABLE_MAX_PAGES
      requires parent < |pager.view| && pager.view[parent].Inner?
               && |pager.view[parent].keys| == EffectiveLoads().inner == 2 * h
      requires |pager.view[parent].kids| == |pager.view[parent].keys| + 1 && Sorted(pager.view[parent].keys)
      requires key !in pager.view[parent].keys && pager.view[parent].kids[Slot(pager.view[parent].keys, key)] == left
      requires tk == KeysWith(pager.view[parent].keys, key)
               && tc == KidsWith(pager.view[parent].keys, pager.view[parent].kids, key, right)
      modifies pager.Repr
      ensures Sound() && fresh(pager.Repr - old(pager.Repr)) && pager.rootPid == old(pager.rootPid)
      ensures newId == |old(pager.view)| && IsCut(old(pager.view), pager.view, parent, tk, tc, h)
      ensures pivot == tk[h] && (pager.zeroed ==> !pager.view[newId].isRoot)
    {
      newId := pager.AllocatePage();
      assert forall x :: 0 <= x < newId ==> pager.view[x] == old(pager.view)[x];
      pivot := pager.InnerSplit(parent, newId, EffectiveLoads().inner, key, left, right);
    }

    /** Links the children of the new entry, then relinks everything the new page took over. */
    method LinkAll(parent: nat, newId: nat, key: Key, pivot: Key, left: nat, right: nat, ghost high: seq<nat>)
      requires Sound() && left < newId && right < newId && left != right && |pager.view| == newId + 1
      requires pager.view[newId].Inner? && pager.view[newId].kids == high && |high| == |pager.view[newId].keys| + 1
      requires forall i :: 0 <= i < |high| ==> high[i] < newId
      modifies pager.Repr
      ensures Sound() && pager.Repr == old(pager.Repr) && pager.rootPid == old(pager.rootPid)
      ensures HalvesLinked(old(pager.view), pager.view, parent, newId, left, right, key <= pivot, key < pivot, high)
    {
      ghost var v2 := pager.view;
      LinkHalves(parent, newId, key, pivot, left, right);
      ghost var v3 := pager.view;
      assert v3[newId] == v2[newId];
      RelinkChildren(newId);
      ComposeLinks(v2, v3, pager.view, parent, newId, left, right, key <= pivot, key < pivot, high);
    }

    /** A full parent is split around the entry; children that moved are relinked to the new page. */
    method SplitParent(parent: nat, key: Key, left: nat, right: nat) returns (pivot: Key, newId: nat)
      requires Sound() && |pager.pages| < TABLE_MAX_PAGES && Inv(State(), Split(left, right), EffectiveLoads())
      requires left != pager.rootPid && parent == pager.view[left].parent && key == marks[left].hi
      requires parent < |pager.view| && pager.view[parent].Inner? && |pager.view[parent].keys| == EffectiveLoads().inner
      modifies pager.Repr
      ensures Sound() && fresh(pager.Repr - old(pager.Repr)) && pager.rootPid == old(pager.rootPid)
      ensures newId == |old(pager.view)| == |pager.view| - 1 && (pager.zeroed ==> !pager.view[newId].isRoot)
      ensures IsEntrySplit(old(State()), Forest(pager.view, SplitMarks(marks, parent, pivot), pager.rootPid),
                           parent, right, key)
    {
      ghost var f, ld := State(), EffectiveLoads();
      ghost var keys, kids := f.nodes[parent].keys, f.nodes[parent].kids;
      SplitReady(f, ld, left, right, key);
      ghost var tk, tc, h := KeysWith(keys, key), KidsWith(keys, kids, key, right), ld.inner / 2;
      pivot, newId := CutParent(parent, key, left, right, tk, tc, h);
      ghost var v2 := pager.view;
      LinkAll(parent, newId, key, pivot, left, right, tc[h + 1..]);
      SplitResult(f, ld, left, right, parent, key, tk, tc, h, v2, pager.view);
    }

    /** A leaf with room takes the cell. */
    method InsertIntoLeaf(pageId: nat, key: Key, row: Row)
      requires Valid() && pageId < |pager.view| && pager.view[pageId].Leaf? && Owns(State(), pageId, key)
      requires key !in rows && |row| == rowSize && |pager.view[pageId].cells| < EffectiveLoads().leaf
      modifies this`rows, pager.Repr
      ensures Valid() && pager.Repr == old(pager.Repr) && rows == old(rows)[key := row]
              && |pager.view| == old(|pager.view|)
    {
      ghost var f, terms := State(), Fixed();
      pager.LeafInsert(pageId, EffectiveLoads().leaf, key, row);
      assert State() == AfterLeafInsert(f, pageId, key, row);
      PutStands(f, rows, terms, pageId, key, row);
      rows := rows[key := row];
    }

    /** Takes over the marks that belong to the pages and rows as they are now. */
    ghost method Adopt(f: Forest, pd: Pending)
      requires Sound() && f.nodes == pager.view && f.root == pager.rootPid && Standing(f, pd, rows, Fixed())
      modifies this`marks
      ensures Mid(pd) && State() == f
    {
      marks := f.marks;
      assert State() == f;
    }

    /** The same after a row was added. */
    ghost method AdoptRows(f: Forest, pd: Pending, held: map<Key, Row>)
      requires Sound() && f.nodes == pager.view && f.root == pager.rootPid && Standing(f, pd, held, Fixed())
      modifies this`marks, this`rows
      ensures Mid(pd) && State() == f && rows == held
    {
      marks, rows := f.marks, held;
      assert State() == f;
    }

    /** A new page takes the upper half of a full leaf. */
    method CutLeaf(pageId: nat, key: Key, row: Row) returns (keyUp: Key, newId: nat, ghost flag: bool, ghost junk: nat)
      requires Sound() && |pager.view| == |marks| < TABLE_MAX_PAGES && pageId < |pager.view| && pager.view[pageId].Leaf?
      requires |pager.view[pageId].cells| == EffectiveLoads().leaf
      requires forall j :: 0 <= j < EffectiveLoads().leaf ==> pager.view[pageId].cells[j].key != key
      modifies pager.Repr
      ensures Sound() && fresh(pager.Repr - old(pager.Repr)) && pager.rootPid == old(pager.rootPid)
      ensures newId == |old(pager.view)| && (pager.zeroed ==> !flag)
      ensures pager.view == AfterLeafSplit(old(State()), pageId, key, row, flag, junk).nodes
      ensures keyUp == CellsWith(old(pager.view)[pageId].cells, key, row)[EffectiveLoads().leaf / 2].key
    {
      ghost var f := State();
      newId := pager.AllocatePage();
      assert forall x :: 0 <= x < newId ==> pager.view[x] == f.nodes[x];
      flag, junk := pager.view[newId].isRoot, pager.view[newId].parent;
      keyUp := pager.LeafSplit(pageId, newId, EffectiveLoads().leaf, key, row);
      assert pager.view == AfterLeafSplit(f, pageId, key, row, flag, junk).nodes;
    }

    /** A full leaf is split around the cell; the new page waits to be linked. */
    method SplitLeaf(pageId: nat, key: Key, row: Row) returns (keyUp: Key, newId: nat)
      requires Valid() && pageId < |pager.view| && pager.view[pageId].Leaf? && Owns(State(), pageId, key)
      requires key !in rows && |row| == rowSize && |pager.view[pageId].cells| == EffectiveLoads().leaf
      requires |pager.view| < TABLE_MAX_PAGES
      modifies this`rows, this`marks, pager.Repr
      ensures newId == |old(pager.view)| == |pager.view| - 1 && Mid(Split(pageId, newId))
              && fresh(pager.Repr - old(pager.Repr))
      ensures rows == old(rows)[key := row] && IsCutLeaf(old(State()), State(), pageId, keyUp)
      ensures AtSplit(State(), Split(pageId, newId), pageId)
      ensures ClimbNeed(State(), Split(pageId, newId), EffectiveLoads(), pageId) ==
              old(ClimbNeed(State(), Settled, EffectiveLoads(), pageId))
    {
      ghost var f, terms := State(), Fixed();
      AbsentFromLeaf(f, rows, pageId, key);
      ghost var flag, junk;
      keyUp, newId, flag, junk := CutLeaf(pageId, key, row);
      ghost var f' := Forest(pager.view, AfterLeafSplit(f, pageId, key, row, flag, junk).marks, pager.rootPid);
      CutResult(f, f', rows, terms, pageId, key, row, flag, junk, keyUp);
      AdoptRows(f', Split(pageId, newId), rows[key := row]);
    }

    /** Page `r` is the upper half of an inner page that was just split. */
    ghost predicate FreshHalf(r: nat)
      reads this, pager
    {
      && r < |pager.view| && r != pager.rootPid && pager.view[r].Inner?
      && 2 * |pager.view[r].keys| == EffectiveLoads().inner
    }

    /** The parent has room: the pending split ends here. */
    method ResolveInParent(parent: nat, key: Key, left: nat, right: nat)
      requires Mid(Split(left, right)) && left != pager.rootPid && left < |pager.view|
               && parent == pager.view[left].parent
      requires key == marks[left].hi && parent < |pager.view| && pager.view[parent].Inner?
      requires |pager.view[parent].keys| < EffectiveLoads().inner
      modifies pager.Repr
      ensures Valid() && pager.Repr == old(pager.Repr) && |pager.view| == old(|pager.view|)
      ensures old(FreshHalf(right)) ==> FreshHalf(right)
    {
      ghost var f, terms := State(), Fixed();
      SplitReady(f, terms.ld, left, right, key);
      assert PageOk(f, Split(left, right), terms.ld, parent);
      InsertIntoParent(parent, key, left, right);
      assert State() == AfterInnerInsert(f, left, right, key);
      TakeStands(f, rows, terms, left, right, key);
    }

    /** The parent is full: it is split as well, and its own split becomes the pending one. */
    method PushSplit(parent: nat, key: Key, left: nat, right: nat) returns (pivot: Key, newId: nat)
      requires Mid(Split(left, right)) && left != pager.rootPid && left < |pager.view|
               && parent == pager.view[left].parent
      requires key == marks[left].hi && parent < |pager.view| && pager.view[parent].Inner?
      requires |pager.view[parent].keys| == EffectiveLoads().inner && |pager.view| < TABLE_MAX_PAGES
      requires AtSplit(State(), Split(left, right), left)
      modifies this`marks, pager.Repr
      ensures newId == |old(pager.view)| == |pager.view| - 1 && Mid(Split(parent, newId))
              && fresh(pager.Repr - old(pager.Repr))
      ensures marks[parent].hi == pivot && pager.rootPid == old(pager.rootPid) && FreshHalf(newId)
      ensures AtSplit(State(), Split(parent, newId), parent)
      ensures ClimbNeed(State(), Split(parent, newId), EffectiveLoads(), parent) + 1
           == old(ClimbNeed(State(), Split(left, right), EffectiveLoads(), left))
      ensures 0 <= StillAbove(parent) < old(StillAbove(left))
    {
      ghost var f, terms := State(), Fixed();
      pivot, newId := SplitParent(parent, key, left, right);
      ghost var f' := Forest(pager.view, SplitMarks(marks, parent, pivot), pager.rootPid);
      PushResult(f, f', rows, terms, left, right, parent, key, pivot);
      Adopt(f', Split(parent, newId));
    }

    /** Moves the root mark to another page. */
    method UpdateRoot(pageId: nat)
      requires Sound() && pageId < |pager.view| && pageId != pager.rootPid
      modifies this`rootPage, pager.Repr
      ensures Sound() && pager.Repr == old(pager.Repr) && pager.rootPid == pageId
      ensures pager.view ==
              old(pager.view)[old(pager.rootPid) := WithRoot(old(pager.view)[old(pager.rootPid)], false)]
                             [pageId := WithParent(WithRoot(old(pager.view)[pageId], true), NODE_PARENT_INVALID)]
    {
      pager.SetRoot(pager.rootPid, false);
      pager.SetRootPage(pageId);
      rootPage := pager.pages[pageId];
      pager.SetRoot(pageId, true);
      pager.LinkTo(pageId, NODE_PARENT_INVALID);
    }

    /** The pages of a new root above `left` and `right`. */
    method BuildRoot(key: Key, left: nat, right: nat)
      requires Sound() && |marks| == |pager.view| < TABLE_MAX_PAGES && left == pager.rootPid && right < |pager.view|
               && left != right
      modifies this`rootPage, pager.Repr
      ensures Sound() && fresh(pager.Repr - old(pager.Repr)) && |pager.view| == old(|pager.view|) + 1
      ensures pager.view == AfterNewRoot(old(State()), left, right, key).nodes && pager.rootPid == old(|pager.view|)
    {
      ghost var v := pager.view;
      var newId := pager.AllocatePage();
      assert forall x :: 0 <= x < newId ==> pager.view[x] == v[x];
      pager.InnerFormat(newId, key, left, right);
      pager.LinkTo(left, newId);
      pager.LinkTo(right, newId);
      UpdateRoot(newId);
      NewRootView(v, pager.view, left, right, key);
    }

    /** The split reached the root: a new root takes both halves. */
    method GrowRoot(key: Key, left: nat, right: nat)
      requires Mid(Split(left, right)) && left == pager.rootPid && key == marks[left].hi
               && |pager.view| < TABLE_MAX_PAGES
      modifies this`marks, this`rootPage, pager.Repr
      ensures Valid() && fresh(pager.Repr - old(pager.Repr)) && |pager.view| == old(|pager.view|) + 1
      ensures old(FreshHalf(right)) ==> FreshHalf(right)
    {
      ghost var f, terms := State(), Fixed();
      BuildRoot(key, left, right);
      GrowStands(f, rows, terms, left, right, key);
      Adopt(AfterNewRoot(f, left, right, key), Settled);
    }

    /** A split of `left` waits in `key` and `right`; the rest of the climb takes the tree to `total` pages. */
    ghost predicate Climbing(key: Key, left: nat, right: nat, parent: nat, total: nat)
      reads this, pager, pager.Repr
    {
      && Mid(Split(left, right)) && AtSplit(State(), Split(left, right), left)
      && parent == pager.view[left].parent && key == marks[left].hi
      && |pager.view| + ClimbNeed(State(), Split(left, right), EffectiveLoads(), left) == total
    }

    /** The levels above page `p`. */
    ghost function StillAbove(p: nat): int
      requires p < |marks| && pager.rootPid < |marks|
      reads this, pager
    {
      marks[pager.rootPid].level - marks[p].level
    }

    /** One round of the climb: either the parent takes the entry, or it is split in turn. */
    method ClimbStep(key: Key, left: nat, right: nat, parent: nat, ghost total: nat)
      returns (jobDone: bool, key': Key, left': nat, right': nat, parent': nat)
      requires Climbing(key, left, right, parent, total) && total <= TABLE_MAX_PAGES && parent != NODE_PARENT_INVALID
      modifies this`marks, pager.Repr
      ensures fresh(pager.Repr - old(pager.Repr))
      ensures jobDone ==> Valid() && |pager.view| == total
      ensures !jobDone ==> Climbing(key', left', right', parent', total) && FreshHalf(right')
      ensures jobDone ==> right' == right && (old(FreshHalf(right)) ==> FreshHalf(right))
      ensures old(FullParent(State(), EffectiveLoads(), left)) ==> !jobDone
      ensures !jobDone ==> 0 <= StillAbove(left') < old(StillAbove(left))
    {
      ParentLoad(State(), Split(left, right), EffectiveLoads(), left);
      assert pager.PageIn(parent);
      if !pager.pages[parent].IsFull(EffectiveLoads().inner) {
        ResolveInParent(parent, key, left, right);
        jobDone, key', left', right', parent' := true, key, left, right, parent;
      } else {
        jobDone := false;
        key', right' := PushSplit(parent, key, left, right);
        left' := parent;
        assert pager.PageIn(left');
        parent' := pager.pages[left'].parent;
      }
    }

    /** The climb has come to a page without parent: that is the root. */
    method FinishClimb(key: Key, left: nat, right: nat, ghost total: nat)
      requires Climbing(key, left, right, NODE_PARENT_INVALID, total) && total <= TABLE_MAX_PAGES
      modifies this`marks, this`rootPage, pager.Repr
      ensures Valid() && fresh(pager.Repr - old(pager.Repr)) && |pager.view| == total
      ensures old(FreshHalf(right)) ==> FreshHalf(right)
    {
      if left != pager.rootPid {
        ParentLevel(State(), Split(left, right), EffectiveLoads(), left);
        assert false;
      }
      GrowRoot(key, left, right);
    }

    /** The climbing loop: up the parent links until a parent has room or there is no parent. */
    method ClimbUp(key: Key, leftPage: nat, rightPage: nat, ghost total: nat)
        returns (jobDone: bool, keyUpward: Key, left: nat, right: nat)
      requires leftPage < |pager.view| && Climbing(key, leftPage, rightPage, pager.view[leftPage].parent, total)
      requires total <= TABLE_MAX_PAGES
      modifies this`marks, pager.Repr
      ensures fresh(pager.Repr - old(pager.Repr))
      ensures if jobDone then Valid() && |pager.view| == total
              else Climbing(keyUpward, left, right, NODE_PARENT_INVALID, total)
      ensures old(FullParent(State(), EffectiveLoads(), leftPage)) ==> FreshHalf(right)
    {
      jobDone, keyUpward, left, right := false, key, leftPage, rightPage;
      assert pager.PageIn(left);
      var parent := pager.pages[left].parent;
      ghost var cuts, begun := FullParent(State(), EffectiveLoads(), leftPage), false;
      while parent != NODE_PARENT_INVALID && !jobDone
        invariant fresh(pager.Repr - old(pager.Repr))
        invariant if jobDone then Valid() && |pager.view| == total else Climbing(keyUpward, left, right, parent, total)
        invariant begun && cuts ==> FreshHalf(right)
        invariant !begun ==> !jobDone && left == leftPage && (cuts ==> FullParent(State(), EffectiveLoads(), left))
        decreases !jobDone, if jobDone then 0 else StillAbove(left)
      {
        jobDone, keyUpward, left, right, parent := ClimbStep(keyUpward, left, right, parent, total);
        begun := true;
      }
      assert cuts ==> begun;
    }

    /** Carries a pending split up the parent links until a parent has room or a new root takes it. */
    method Propagate(key: Key, leftPage: nat, rightPage: nat, ghost total: nat)
      requires leftPage < |pager.view| && Climbing(key, leftPage, rightPage, pager.view[leftPage].parent, total)
      requires total <= TABLE_MAX_PAGES
      modifies this`marks, this`rootPage, pager.Repr
      ensures Valid() && fresh(pager.Repr - old(pager.Repr)) && |pager.view| == total
      ensures old(FullParent(State(), EffectiveLoads(), leftPage)) ==> exists r :: FreshHalf(r)
    {
      var jobDone, keyUpward, left, right := ClimbUp(key, leftPage, rightPage, total);
      if !jobDone {
        FinishClimb(keyUpward, left, right, total);
      }
    }

    /** The insert fits: the key is present, or the pages it allocates do not exceed the page table. */
    ghost predicate RoomFor(key: Key)
      requires Valid()
      reads this, pager, pager.Repr
    {
      key in rows || forall p :: 0 <= p < |pager.view| && pager.view[p].Leaf? && Owns(State(), p, key) ==>
                       |pager.view| + LeafNeed(State(), EffectiveLoads(), p) <= TABLE_MAX_PAGES
    }

    /** Adds a row to the leaf that owns its key, splitting upwards when it is full. */
    method AddRow(pageId: nat, key: Key, row: Row)
      requires Valid() && |row| == rowSize && key !in rows
      requires pageId < |pager.view| && pager.view[pageId].Leaf? && Owns(State(), pageId, key)
      requires |pager.view| + LeafNeed(State(), EffectiveLoads(), pageId) <= TABLE_MAX_PAGES
      modifies this`rows, this`marks, this`rootPage, pager.Repr
      ensures Valid() && fresh(pager.Repr - old(pager.Repr)) && rows == old(rows)[key := row]
      ensures |pager.view| == old(|pager.view| + LeafNeed(State(), EffectiveLoads(), pageId))
      ensures old(CutsInner(State(), EffectiveLoads(), pageId)) ==> exists r :: FreshHalf(r)
    {
      ghost var f, ld := State(), EffectiveLoads();
      assert pager.PageIn(pageId) && PageOk(f, Settled, ld, pageId);
      if !pager.pages[pageId].IsFull(EffectiveLoads().leaf) {
        InsertIntoLeaf(pageId, key, row);
      } else {
        ghost var total := |pager.view| + LeafNeed(f, ld, pageId);
        var keyUpward, newId := SplitLeaf(pageId, key, row);
        Propagate(keyUpward, pageId, newId, total);
      }
    }

    /**
     * The page has as many keys as it may: the number asked for, or as many as fit. A leaf has room for an even number
     * of cells of 4 + rowSize bytes in 4078 bytes, an inner page for 338 separators.
     */
    ghost predicate Fills(p: nat)
      reads this, pager
    {
      && p < |pager.view|
      && match pager.view[p]
         case Leaf(_, _, cells) =>
           |cells| == leafLoad || (|cells| % 2 == 0 && 4078 < (|cells| + 2) * (4 + rowSize))
         case Inner(_, _, keys, _) => |keys| == innerLoad || |keys| == 338
    }

    /** A page is at its load exactly if it is full in plain terms. */
    lemma FillsMeans(p: nat)
      requires Valid() && p < |pager.view|
      ensures pager.view[p].Leaf? ==> (|pager.view[p].cells| == EffectiveLoads().leaf <==> Fills(p))
      ensures pager.view[p].Inner? ==> (|pager.view[p].keys| == EffectiveLoads().inner <==> Fills(p))
    {
      assert PageOk(State(), Settled, EffectiveLoads(), p);
      if pager.view[p].Leaf? {
        LeafLoadMeans(rowSize, leafLoad, innerLoad, |pager.view[p].cells|);
      } else {
        InnerLoadMeans(rowSize, leafLoad, innerLoad, |pager.view[p].keys|);
      }
    }

    /** The pages that the climb from `c` allocates: one per full page above, and a new root above a full root. */
    lemma ClimbMeans(c: nat)
      requires Valid() && c < |pager.view|
      ensures c != pager.rootPid ==> pager.view[c].parent < |pager.view|
      ensures ClimbNeed(State(), Settled, EffectiveLoads(), c) ==
              if c == pager.rootPid then 1
              else if Fills(pager.view[c].parent)
              then 1 + ClimbNeed(State(), Settled, EffectiveLoads(), pager.view[c].parent) else 0
    {
      if c != pager.rootPid {
        ParentLevel(State(), Settled, EffectiveLoads(), c);
        assert PageOk(State(), Settled, EffectiveLoads(), pager.view[c].parent);
        FillsMeans(pager.view[c].parent);
      }
    }

    /** An insert makes a page exactly if its leaf is full, and two exactly if the page above is full or missing. */
    lemma GrowthMeans(p: nat)
      requires Valid() && p < |pager.view| && pager.view[p].Leaf?
      ensures LeafNeed(State(), EffectiveLoads(), p) > 0 <==> Fills(p)
      ensures LeafNeed(State(), EffectiveLoads(), p) > 1 <==>
                Fills(p) && (p == pager.rootPid || Fills(pager.view[p].parent))
    {
      assert PageOk(State(), Settled, EffectiveLoads(), p);
      FillsMeans(p);
      ClimbMeans(p);
    }

    /** Adds a row under a new key; a key that is present is refused and nothing changes. */
    method Insert(key: Key, row: Row) returns (status: InsertStatus)
      requires Valid() && |row| == rowSize && RoomFor(key)
      modifies this`rows, this`marks, this`rootPage, pager.Repr
      ensures Valid() && fresh(pager.Repr - old(pager.Repr))
      ensures status == FAIL_DUPLICATE_KEY <==> key in old(rows)
      ensures key in old(rows) ==> State() == old(State()) && rows == old(rows) && pager.Repr == old(pager.Repr)
      ensures key !in old(rows) ==> rows == old(rows)[key := row]
      ensures |pager.view| >= old(|pager.view|)
      ensures key !in old(rows) ==>
                forall p :: 0 <= p < old(|pager.view|) && old(pager.view)[p].Leaf? && Owns(old(State()), p, key) ==>
                && |pager.view| == old(|pager.view|) + LeafNeed(old(State()), EffectiveLoads(), p)
                && (old(CutsInner(State(), EffectiveLoads(), p)) ==> exists r :: FreshHalf(r))
      ensures key !in old(rows) ==>
                forall p :: 0 <= p < old(|pager.view|) && old(pager.view)[p].Leaf? && Owns(old(State()), p, key) ==>
                && (|pager.view| > old(|pager.view|) <==> old(Fills(p)))
                && (|pager.view| > old(|pager.view|) + 1 <==>
                      old(Fills(p) && (p == pager.rootPid || Fills(pager.view[p].parent))))
    {
      var keyLocation := Find(key);
      if keyLocation.isExist {
        return FAIL_DUPLICATE_KEY;
      }
      var pageId := keyLocation.pageId;
      ghost var f, ld := State(), EffectiveLoads();
      OnlyOwner(f, ld, pageId, key);
      GrowthMeans(pageId);
      AddRow(pageId, key, row);
      return SUCCESS;
    }

    /** First and last separator position that bound the children to visit. */
    method ChildWindow(node: Page, min: Key, max: Key) returns (i: nat, j: int)
      requires node.Valid() && node.kind == InnerKind && node.count > 0 && Sorted(node.keys[..node.count]) && min <= max
      ensures -1 <= j < node.count && Window(node.keys[..node.count], min, max, i, j + 2)
    {
      var n := node.count;
      ghost var keys := node.keys[..n];
      i, j := 0, n - 1;
      while i < n && node.keys[i] < min
        invariant i <= n && (i > 0 ==> keys[i - 1] < min)
      {
        i := i + 1;
      }
      while j >= 0 && node.keys[j] >= max
        invariant -1 <= j < n && (j + 1 < n ==> keys[j + 1] >= max)
        decreases j
      {
        j := j - 1;
      }
      assert i <= j + 1;
    }

    /** The cells of a leaf within the range, in their order. */
    method LeafCellsInRange(node: Page, min: Key, max: Key) returns (cells: seq<Cell>)
      requires node.Valid() && node.kind == LeafKind && SortedCells(node.cells[..node.count])
      ensures SortedCells(cells)
      ensures forall c: Cell :: c in cells <==> c in node.cells[..node.count] && min <= c.key <= max
    {
      cells := [];
      for k := 0 to node.count
        invariant SortedCells(cells)
        invariant forall c: Cell :: c in cells <==> c in node.cells[..k] && min <= c.key <= max
        invariant forall x :: 0 <= x < |cells| && k < node.count ==> cells[x].key < node.cells[k].key
      {
        assert node.cells[..k + 1] == node.cells[..k] + [node.cells[k]];
        assert k + 1 < node.count ==> node.cells[..node.count][k].key < node.cells[..node.count][k + 1].key;
        if min <= node.cells[k].key <= max {
          cells := cells + [node.cells[k]];
        }
      }
    }

    /**
     * Visits the pages below `pid` that can hold a key in range, children first; logs the pages and the cells in range.
     */
    method PostOrderVisit(pid: nat, min: Key, max: Key) returns (pages: seq<nat>, cells: seq<Cell>)
      requires Ordered(Settled) && pid < |pager.pages|
      requires min <= max ==> Meets(marks[pid], min, max)
      ensures min > max ==> pages == [] && cells == []
      ensures min <= max ==> CellsBetween(State(), marks[pid].lo, marks[pid].hi, min, max, cells)
      ensures min <= max ==> PagesBetween(State(), marks[pid].level, marks[pid].lo, marks[pid].hi, min, max, pages)
      decreases marks[pid].level, 2
    {
      pages, cells := [], [];
      if min > max {
        return;
      }
      ghost var f, ld := State(), EffectiveLoads();
      assert pager.PageIn(pid) && PageOk(f, Settled, ld, pid);
      var node := pager.pages[pid];
      if node.kind == InnerKind {
        pages, cells := VisitChildren(pid, min, max);
        pages := pages + [pid];
      } else {
        LeafPages(f, ld, pid, min, max);
        if node.count > 0 {
          cells := LeafCellsInRange(node, min, max);
          pages := [pid];
        }
        LeafCells(f, ld, pid, min, max, cells);
      }
    }

    /** The window of an inner page of the tree. */
    method PageWindow(pid: nat, node: Page, min: Key, max: Key) returns (i: nat, j: int)
      requires Ordered(Settled) && pid < |pager.pages| && node == pager.pages[pid] && pager.view[pid].Inner?
               && min <= max
      ensures -1 <= j < |pager.view[pid].keys| && Window(pager.view[pid].keys, min, max, i, j + 2)
    {
      assert pager.PageIn(pid) && PageOk(State(), Settled, EffectiveLoads(), pid);
      i, j := ChildWindow(node, min, max);
    }

    method VisitChildren(pid: nat, min: Key, max: Key) returns (pages: seq<nat>, cells: seq<Cell>)
      requires Ordered(Settled) && pid < |pager.pages| && pager.view[pid].Inner? && Meets(marks[pid], min, max)
      ensures CellsBetween(State(), marks[pid].lo, marks[pid].hi, min, max, cells)
      ensures PagesBetween(State(), marks[pid].level, marks[pid].lo, marks[pid].hi, min, max, pages + [pid])
      decreases marks[pid].level, 1
    {
      ghost var f, ld := State(), EffectiveLoads();
      var node := pager.pages[pid];
      var i, j := PageWindow(pid, node, min, max);
      pages, cells := [], [];
      WalkBegins(f, ld, pid, i, min, max);
      var k := i;
      while k <= j + 1
        invariant i <= k <= j + 2 && Walked(f, pid, i, k, min, max, pages, cells)
      {
        var morePages, moreCells := VisitChild(pid, node, k, i, j + 2, min, max);
        WalkExtends(f, ld, pid, i, k, min, max, pages, morePages, cells, moreCells);
        pages, cells := pages + morePages, cells + moreCells;
        k := k + 1;
      }
      WalkDone(f, ld, pid, i, j + 2, min, max, pages, cells);
    }

    method VisitChild(pid: nat, node: Page, k: nat, ghost i: nat, ghost e: nat, min: Key, max: Key)
        returns (pages: seq<nat>, cells: seq<Cell>)
      requires Ordered(Settled) && pid < |pager.pages| && node == pager.pages[pid] && pager.view[pid].Inner?
               && Meets(marks[pid], min, max)
      requires Window(pager.view[pid].keys, min, max, i, e) && i <= k < e
      ensures Walked(State(), pid, k, k + 1, min, max, pages, cells)
      decreases marks[pid].level, 0
    {
      ghost var f, ld := State(), EffectiveLoads();
      assert pager.PageIn(pid) && PageOk(f, Settled, ld, pid);
      ChildEdges(f, ld, pid, k);
      WindowMeets(marks[pid], pager.view[pid].keys, min, max, i, e, k);
      assert node.kids[k] == f.nodes[pid].kids[k];
      pages, cells := PostOrderVisit(node.kids[k], min, max);
    }

    /** The cells with min <= key <= max, each once, in ascending key order. */
    method SelectCell(min: Key, max: Key) returns (cells: seq<Cell>)
      requires Valid()
      ensures forall i, j :: 0 <= i < j < |cells| ==> cells[i].key < cells[j].key
      ensures forall c: Cell :: c in cells <==> c.key in rows && rows[c.key] == c.row && min <= c.key <= max
    {
      RootView(State(), EffectiveLoads(), pager.rootPid);
      var pages;
      pages, cells := PostOrderVisit(pager.rootPid, min, max);
    }

    ghost predicate Passes(p: nat)
      requires p < |pager.view|
      reads this, pager
    {
      PagePasses(pager.view, pager.rootPid, innerLoad, p)
    }

    method IsKeyMonotonicIncreasing(node: Page) returns (ok: bool)
      requires node.Valid()
      ensures ok <==> forall i, j :: 0 <= i < j < node.count ==> node.GetKey(i) < node.GetKey(j)
    {
      ghost var keys := NodeKeys(node.Val());
      if node.count <= 1 {
        return true;
      }
      var i := 0;
      while i + 1 < node.count
        invariant 0 <= i < node.count && |keys| == node.count
        invariant forall a, b :: 0 <= a < b <= i ==> keys[a] < keys[b]
      {
        if node.GetKey(i) >= node.GetKey(i + 1) {
          assert keys[i] >= keys[i + 1];
          return false;
        }
        i := i + 1;
      }
      return true;
    }

    /** The checks on one pair of neighbouring children and their separator. */
    method CheckPair(pid: nat, node: Page, i: nat) returns (outcome: CheckOutcome)
      requires Ordered(Settled) && pid < |pager.pages| && node == pager.pages[pid] && node.kind == InnerKind
               && i < node.count
      ensures outcome == Verdict(true)
    {
      ghost var f, ld := State(), EffectiveLoads();
      assert pager.PageIn(pid) && PageOk(f, Settled, ld, pid);
      NeighbourKeys(f, ld, pid, i);
      var key := node.GetKey(i);
      var l, r := node.kids[i], node.kids[i + 1];
      assert l == f.nodes[pid].kids[i] && r == f.nodes[pid].kids[i + 1];
      assert pager.PageIn(l) && pager.PageIn(r);
      var lchild, rchild := pager.pages[l], pager.pages[r];
      assert lchild.Val() == f.nodes[l] && rchild.Val() == f.nodes[r];
      assert lchild.count == |NodeKeys(f.nodes[l])| && rchild.count == |NodeKeys(f.nodes[r])|;
      if lchild.parent != pid || rchild.parent != pid {
        return Thrown(NotLinked);
      }
      if !(lchild.GetKey(lchild.count - 1) <= key < rchild.GetKey(0)) {
        return Thrown(SeparatorBroken);
      }
      return Verdict(true);
    }

    /** The checks on one inner page. */
    method CheckInner(pid: nat) returns (outcome: CheckOutcome)
      requires Ordered(Settled) && RootFlags() && pid < |pager.pages| && pager.view[pid].Inner?
      ensures outcome == if pid != pager.rootPid && pager.view[pid].isRoot then Thrown(RootNotSet)
                         else if pid != pager.rootPid && 2 * |pager.view[pid].keys| < innerLoad then Thrown(LoadOrOrder)
                         else Verdict(true)
    {
      ghost var f, ld := State(), EffectiveLoads();
      assert pager.PageIn(pid) && PageOk(f, Settled, ld, pid);
      if pid != pager.rootPid {
        ParentOwns(f, ld, pid);
      }
      var node := pager.pages[pid];
      var rootIsSet := if pid == pager.rootPid then node.isRoot && node.parent == NODE_PARENT_INVALID
                       else !node.isRoot && node.parent != NODE_PARENT_INVALID;
      if !rootIsSet {
        return Thrown(RootNotSet);
      }
      var increasing := IsKeyMonotonicIncreasing(node);
      if !((node.isRoot || node.count * 2 >= innerLoad) && increasing) {
        return Thrown(LoadOrOrder);
      }
      var i := 0;
      while i < node.count
        invariant i <= node.count
      {
        outcome := CheckPair(pid, node, i);
        if outcome.Thrown? {
          return;
        }
        i := i + 1;
      }
      return Verdict(true);
    }

    /** The checks stop at entry `x` of a visit, the first that does not pass. */
    ghost predicate StopsAt(pages: seq<nat>, x: nat, outcome: CheckOutcome)
      reads this, pager
    {
      && x < |pages| && (forall i :: 0 <= i < |pages| ==> pages[i] < |pager.view|)
      && !Passes(pages[x]) && (forall y :: 0 <= y < x ==> Passes(pages[y]))
      && outcome == Thrown(if pager.view[pages[x]].isRoot then RootNotSet else LoadOrOrder)
    }

    /** Applies the checks to the inner pages of a visit, in order, up to the first complaint. */
    method CheckPages(pages: seq<nat>) returns (outcome: CheckOutcome)
      requires Ordered(Settled) && RootFlags() && forall x :: 0 <= x < |pages| ==> pages[x] < |pager.view|
      ensures if outcome == Verdict(true) then forall x :: 0 <= x < |pages| ==> Passes(pages[x])
              else exists x: nat :: StopsAt(pages, x, outcome)
    {
      var i := 0;
      while i < |pages|
        invariant i <= |pages|
        invariant forall x :: 0 <= x < i ==> Passes(pages[x])
      {
        assert pager.PageIn(pages[i]);
        if pager.pages[pages[i]].kind == InnerKind {
          outcome := CheckInner(pages[i]);
          if outcome.Thrown? {
            assert StopsAt(pages, i, outcome);
            return;
          }
        }
        i := i + 1;
      }
      return Verdict(true);
    }

    /** Page `p` does not pass, and no page visited before it fails to. */
    ghost predicate FailsFirst(p: nat)
      reads this, pager
    {
      && p < |pager.view| && pager.view[p].Inner? && !Passes(p)
      && (forall q :: 0 <= q < |pager.view| && q != p && !Passes(q) ==> Before(State(), p, q))
    }

    /**
     * The runtime checker. It accepts exactly the trees in which no inner page but the root carries a root byte and
     * each has half of the load asked for; otherwise it complains about the first page in visiting order.
     */
    method CheckValid() returns (outcome: CheckOutcome)
      requires Valid()
      ensures outcome == Verdict(true) <==>
                forall p :: 0 <= p < |pager.view| && pager.view[p].Inner? && p != pager.rootPid ==>
                  !pager.view[p].isRoot && 2 * |pager.view[p].keys| >= innerLoad
      ensures outcome != Verdict(true) ==>
                exists p: nat ::
                  FailsFirst(p) && outcome == Thrown(if pager.view[p].isRoot then RootNotSet else LoadOrOrder)
    {
      ghost var f, ld := State(), EffectiveLoads();
      RootView(f, ld, pager.rootPid);
      var pages, _ := PostOrderVisit(pager.rootPid, 0, UINT32_MAX);
      FullVisit(f, ld, pages);
      assert forall x :: 0 <= x < |pages| ==> pages[x] in pages;
      outcome := CheckPages(pages);
      FirstOfVisit(pages, outcome);
    }

    /** What the checks say on a full visit, in terms of all pages. */
    lemma FirstOfVisit(pages: seq<nat>, outcome: CheckOutcome)
      requires (forall i :: 0 <= i < |pages| ==> pages[i] < |pager.view|) && PostOrder(State(), pages)
      requires forall p :: 0 <= p < |pager.view| && pager.view[p].Inner? ==> p in pages
      requires if outcome == Verdict(true) then forall x :: 0 <= x < |pages| ==> Passes(pages[x])
               else exists x: nat :: StopsAt(pages, x, outcome)
      ensures outcome == Verdict(true) <==>
                forall p :: 0 <= p < |pager.view| && pager.view[p].Inner? && p != pager.rootPid ==>
                  !pager.view[p].isRoot && 2 * |pager.view[p].keys| >= innerLoad
      ensures outcome != Verdict(true) ==>
                exists p: nat ::
                  FailsFirst(p) && outcome == Thrown(if pager.view[p].isRoot then RootNotSet else LoadOrOrder)
    {
      if outcome == Verdict(true) {
        forall p | 0 <= p < |pager.view| && pager.view[p].Inner? ensures Passes(p) {
          assert p in pages;
        }
      } else {
        var x: nat :| StopsAt(pages, x, outcome);
        forall q | 0 <= q < |pager.view| && q != pages[x] && !Passes(q) ensures Before(State(), pages[x], q) {
          assert q in pages;
        }
        assert FailsFirst(pages[x]);
      }
    }

    /** With a load beyond the page capacity the upper half of a split inner page does not pass. */
    lemma HalfFails(r: nat)
      requires FreshHalf(r) && innerLoad > INNER_CAPACITY
      ensures !Passes(r)
    {
      assert EffectiveLoads().inner == INNER_CAPACITY;
    }

    /** With zeroed memory and a load that fits the page, every page passes. */
    lemma AllPass()
      requires Valid() && pager.zeroed && innerLoad <= INNER_CAPACITY
      ensures forall p :: 0 <= p < |pager.view| ==> Passes(p)
      ensures forall p :: 0 <= p < |pager.view| && pager.view[p].Inner? && p != pager.rootPid ==>
                !pager.view[p].isRoot && 2 * |pager.view[p].keys| >= innerLoad
    {
      forall p | 0 <= p < |pager.view| ensures Passes(p) {
        assert PageOk(State(), Settled, EffectiveLoads(), p);
      }
      forall p | 0 <= p < |pager.view| && pager.view[p].Inner? && p != pager.rootPid
        ensures !pager.view[p].isRoot && 2 * |pager.view[p].keys| >= innerLoad
      {
        assert Passes(p);
      }
    }
  }

  /** The pages after the steps that build a new root. */
  lemma NewRootView(v: seq<Node>, v': seq<Node>, l: nat, r: nat, key: Key)
    requires l < |v| && r < |v| && l != r && |v'| == |v| + 1
             && v'[|v|] == Inner(true, NODE_PARENT_INVALID, [key], [l, r])
    requires v'[l] == WithRoot(WithParent(v[l], |v|), false) && v'[r] == WithParent(v[r], |v|)
    requires forall x :: 0 <= x < |v| && x != l && x != r ==> v'[x] == v[x]
    ensures v' == v[l := WithRoot(WithParent(v[l], |v|), false)][r := WithParent(v[r], |v|)]
                  + [Inner(true, NODE_PARENT_INVALID, [key], [l, r])]
  {
  }

  /** A child has keys, all of them within its interval. */
  lemma ChildKeys(f: Forest, ld: Loads, p: nat, k: nat)
    requires Inv(f, Settled, ld) && GoodLoads(ld) && p < |f.nodes| && f.nodes[p].Inner? && k < |f.nodes[p].kids|
    ensures f.nodes[p].kids[k] < |f.nodes|
    ensures var c := f.nodes[p].kids[k];
            var keys := NodeKeys(f.nodes[c]);
            && f.nodes[c].parent == p && |keys| > 0 && f.marks[c].lo < keys[0] && keys[|keys| - 1] <= f.marks[c].hi
  {
    ChildEdges(f, ld, p, k);
    assert PageOk(f, Settled, ld, p);
    assert ParentIs(f, f.nodes[p].kids[k], p);
    assert PageOk(f, Settled, ld, f.nodes[p].kids[k]);
  }

  /** Two neighbouring children name their parent, and their separator lies between their keys. */
  lemma NeighbourKeys(f: Forest, ld: Loads, p: nat, i: nat)
    requires Inv(f, Settled, ld) && GoodLoads(ld) && p < |f.nodes| && f.nodes[p].Inner? && i < |f.nodes[p].keys|
    ensures |f.nodes[p].kids| == |f.nodes[p].keys| + 1 && f.nodes[p].kids[i] < |f.nodes|
            && f.nodes[p].kids[i + 1] < |f.nodes|
    ensures var l, r := f.nodes[f.nodes[p].kids[i]], f.nodes[f.nodes[p].kids[i + 1]];
            && l.parent == p && r.parent == p && |NodeKeys(l)| > 0 && |NodeKeys(r)| > 0
            && NodeKeys(l)[|NodeKeys(l)| - 1] <= f.nodes[p].keys[i] < NodeKeys(r)[0]
  {
    assert PageOk(f, Settled, ld, p);
    ChildEdges(f, ld, p, i);
    ChildEdges(f, ld, p, i + 1);
    ChildKeys(f, ld, p, i);
    ChildKeys(f, ld, p, i + 1);
  }

  /** A visit of the whole range from the root reaches every inner page. */
  lemma FullVisit(f: Forest, ld: Loads, pages: seq<nat>)
    requires Inv(f, Settled, ld)
    requires PagesBetween(f, f.marks[f.root].level, f.marks[f.root].lo, f.marks[f.root].hi, 0, UINT32_MAX, pages)
    ensures forall p: nat :: p < |f.nodes| && f.nodes[p].Inner? ==> p in pages
  {
    forall p: nat | p < |f.nodes| && f.nodes[p].Inner? ensures p in pages {
      assert PageOk(f, Settled, ld, p);
      RootView(f, ld, p);
    }
  }

  /** What the position found by the search says about the cells of a leaf. */
  lemma RowLocation(cells: seq<Cell>, keys: seq<Key>, key: Key, pos: int)
    requires SortedCells(cells) && |keys| == |cells| && forall i :: 0 <= i < |cells| ==> keys[i] == cells[i].key
    requires pos == Slot(keys, key) - 1
    ensures -1 <= pos < |cells|
    ensures if pos >= 0 && cells[pos].key == key then LocatesRow(cells, key, pos, true)
            else LocatesRow(cells, key, pos + 1, false)
  {
    CellSlotSplits(cells, keys, key, pos + 1);
  }

  lemma OnlyOwner(f: Forest, ld: Loads, leaf: nat, key: Key)
    requires Inv(f, Settled, ld) && leaf < |f.nodes| && f.nodes[leaf].Leaf? && Owns(f, leaf, key)
    ensures forall p :: 0 <= p < |f.nodes| && f.nodes[p].Leaf? && Owns(f, p, key) ==> p == leaf
  {
    forall p | 0 <= p < |f.nodes| && f.nodes[p].Leaf? && Owns(f, p, key) ensures p == leaf {
      assert PageOk(f, Settled, ld, p) && PageOk(f, Settled, ld, leaf);
      UniqueOwner(f, ld, p, leaf, key);
    }
  }

  /** Presence in the leaf that owns a key is presence in the map. */
  lemma LocatedExists(f: Forest, ld: Loads, rows: map<Key, Row>, loc: KeyLocation, key: Key)
    requires Inv(f, Settled, ld) && Holds(f.nodes, rows) && Locates(f, loc, key)
    ensures loc.isExist <==> key in rows
    ensures loc.isExist ==> f.nodes[loc.pageId].cells[loc.rowId] == Cell(key, rows[key])
  {
    var cells := f.nodes[loc.pageId].cells;
    if loc.isExist {
      assert HasCell(f.nodes, loc.pageId, cells[loc.rowId]);
      assert Stored(f.nodes, cells[loc.rowId]);
    }
    if key in rows {
      OwnerHolds(f, ld, loc.pageId, Cell(key, rows[key]));
      var i :| 0 <= i < |cells| && cells[i] == Cell(key, rows[key]);
      assert PageOk(f, Settled, ld, loc.pageId);
      assert i == loc.rowId;
    }
  }

  /** What the split of a full parent relies on: its entry is new, sits at the slot of the left page, and fits. */
  lemma SplitReady(f: Forest, ld: Loads, l: nat, r: nat, key: Key)
    requires Inv(f, Split(l, r), ld) && l != f.root && key == f.marks[l].hi
    ensures f.nodes[l].parent < |f.nodes|
    ensures var q := f.nodes[l].parent;
            var n := f.nodes[q];
            && n.Inner? && |n.kids| == |n.keys| + 1 && q != l && q != r && l != r
            && Sorted(n.keys) && key !in n.keys && n.kids[Slot(n.keys, key)] == l
            && InnerOk(f.marks[q], KeysWith(n.keys, key), KidsWith(n.keys, n.kids, key, r), f.marks)
            && (forall i :: 0 <= i < |n.kids| + 1 ==> KidsWith(n.keys, n.kids, key, r)[i] < |f.nodes|)
  {
    PendingParent(f, l, r, ld);
    var q := f.nodes[l].parent;
    var tk, tc := KeysWith(f.nodes[q].keys, key), KidsWith(f.nodes[q].keys, f.nodes[q].kids, key, r);
    assert PageOk(f, Split(l, r), ld, q);
    forall i | 0 <= i < |tc| ensures tc[i] < |f.nodes| {
      assert KidOk(f.marks[q], tk, tc, f.marks, i);
    }
  }

  /** Page `q` keeps what lies below separator `h` of `tk`; a new last page holds what lies above. */
  ghost predicate IsCut(v0: seq<Node>, v2: seq<Node>, q: nat, tk: seq<Key>, tc: seq<nat>, h: nat) {
    && |v2| == |v0| + 1 && q < |v0| && h < |tk| && |tc| == |tk| + 1
    && v2[q] == Inner(v0[q].isRoot, v0[q].parent, tk[..h], tc[..h + 1])
    && v2[|v0|].Inner? && v2[|v0|].keys == tk[h + 1..] && v2[|v0|].kids == tc[h + 1..]
    && (forall x :: 0 <= x < |v0| && x != q ==> v2[x] == v0[x])
  }

  /** Linking by comparing the entry with the pivot and then relinking the new page gives the split state. */
  lemma SplitResult(f: Forest, ld: Loads, l: nat, r: nat, q: nat, key: Key, tk: seq<Key>, tc: seq<nat>, h: nat,
                    v2: seq<Node>, v: seq<Node>)
    requires Inv(f, Split(l, r), ld) && l < |f.nodes| && r < |f.nodes| && l != r && q < |f.nodes| && q != l && q != r
             && f.nodes[l].parent == q
    requires f.nodes[q].Inner? && |f.nodes[q].kids| == |f.nodes[q].keys| + 1
             && f.nodes[q].kids[Slot(f.nodes[q].keys, key)] == l
    requires tk == KeysWith(f.nodes[q].keys, key) && tc == KidsWith(f.nodes[q].keys, f.nodes[q].kids, key, r)
             && InnerOk(f.marks[q], tk, tc, f.marks)
    requires IsCut(f.nodes, v2, q, tk, tc, h)
    requires HalvesLinked(v2, v, q, |f.nodes|, l, r, key <= tk[h], key < tk[h], tc[h + 1..])
    ensures IsInnerSplit(f, Forest(v, SplitMarks(f.marks, q, tk[h]), f.root), q, r, tk, tc, h)
  {
    var p := EntryInserts(f.nodes[q].keys, f.nodes[q].kids, key, r);
    SplitResultAt(f, q, l, r, key, p, tk, tc, h, v2, v);
  }

  /** `v` is `v2` after the two children are linked and the children of the new page relinked. */
  ghost predicate HalvesLinked(v2: seq<Node>, v: seq<Node>, q: nat, n: nat, l: nat, r: nat, leftLow: bool,
                               rightLow: bool, high: seq<nat>)
  {
    && |v2| == |v| == n + 1 && l < n && r < n && l != r
    && forall x :: 0 <= x <= n ==>
         v[x] == if x in high then WithParent(v2[x], n)
                 else if x == l then WithParent(v2[x], if leftLow then q else n)
                 else if x == r then WithParent(v2[x], if rightLow then q else n)
                 else v2[x]
  }

  lemma ComposeLinks(v2: seq<Node>, v3: seq<Node>, v: seq<Node>, q: nat, n: nat, l: nat, r: nat, leftLow: bool,
                     rightLow: bool, high: seq<nat>)
    requires |v2| == |v| == n + 1 && l < n && r < n && l != r
    requires v3 == v2[l := WithParent(v2[l], if leftLow then q else n)]
                     [r := WithParent(v2[r], if rightLow then q else n)]
    requires forall x :: 0 <= x < |v| ==> v[x] == if x in high then WithParent(v3[x], n) else v3[x]
    ensures HalvesLinked(v2, v, q, n, l, r, leftLow, rightLow, high)
  {
    assert forall x :: 0 <= x < |v| && x != l && x != r ==> v3[x] == v2[x];
  }

  lemma SplitResultAt(f: Forest, q: nat, l: nat, r: nat, key: Key, p: nat, tk: seq<Key>, tc: seq<nat>, h: nat,
                      v2: seq<Node>, v: seq<Node>)
    requires |f.marks| == |f.nodes| && l < |f.nodes| && r < |f.nodes| && l != r && q < |f.nodes| && q != l && q != r
    requires f.nodes[q].Inner? && f.nodes[l].parent == q && InnerOk(f.marks[q], tk, tc, f.marks)
    requires p < |tk| && tk[p] == key && tc[p] == l && tc[p + 1] == r
    requires IsCut(f.nodes, v2, q, tk, tc, h)
    requires HalvesLinked(v2, v, q, |f.nodes|, l, r, key <= tk[h], key < tk[h], tc[h + 1..])
    ensures IsInnerSplit(f, Forest(v, SplitMarks(f.marks, q, tk[h]), f.root), q, r, tk, tc, h)
  {
    var high, n := tc[h + 1..], |f.nodes|;
    KidsDistinct(f.marks[q], tk, tc, f.marks);
    HalvesDisjoint(tc, h + 1);
    assert key <= tk[h] <==> p <= h;
    assert key < tk[h] <==> p < h;
    assert p <= h ==> tc[..h + 1][p] == l;
    assert p < h ==> tc[..h + 1][p + 1] == r;
    assert p > h ==> high[p - h - 1] == l;
    assert p >= h ==> high[p - h] == r;
    forall i | 0 <= i < |high| ensures high[i] != q && high[i] < n {
      assert KidOk(f.marks[q], tk, tc, f.marks, i + h + 1);
    }
  }
}
