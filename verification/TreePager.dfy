/** The growing array of pages the tree works on, with a ghost snapshot of what is in each page. */
module TreePager {
  import opened PageModel
  import opened NodePage
  import PageCodec
  import PageFile

  class Pager {
    var pages: seq<Page>
    var rootPid: nat
    const rowSize: nat
    /** Whether newly allocated memory has a zero root byte. */
    const zeroed: bool
    ghost var view: seq<Node>
    ghost var Repr: set<object>

    ghost predicate PageIn(i: nat)
      requires i < |pages| == |view|
      reads this, Repr
    {
      var p := pages[i];
      && p in Repr && p.cells in Repr && p.keys in Repr && p.kids in Repr
      && p.Valid() && p.cells.Length == LeafCapacity(rowSize)
      && view[i] == p.Val()
    }

    static ghost predicate Apart(pages: seq<Page>, i: nat, j: nat)
      requires i < |pages| && j < |pages|
    {
      pages[i].Separate(pages[j])
    }

    ghost predicate Valid()
      reads this, Repr
    {
      && this in Repr
      && |view| == |pages| <= TABLE_MAX_PAGES
      && (forall i :: 0 <= i < |pages| ==> PageIn(i))
      && (forall i, j :: 0 <= i < |pages| && 0 <= j < |pages| && i != j ==> Apart(pages, i, j))
    }

    /** A page that no method touched is still in order. */
    twostate lemma PageStays(i: nat)
      requires i < |old(view)| == |old(pages)| && i < |view| == |pages| && old(PageIn(i))
      requires old(Repr) <= Repr && pages[i] == old(pages[i]) && view[i] == old(view[i])
      requires unchanged(pages[i], pages[i].cells, pages[i].keys, pages[i].kids)
      ensures PageIn(i)
    {
    }

    constructor (rowSize: nat, zeroed: bool)
      ensures Valid() && fresh(Repr) && pages == [] && view == [] && this.rowSize == rowSize && this.zeroed == zeroed
              && rootPid == 0
    {
      pages, rootPid, view := [], 0, [];
      this.rowSize, this.zeroed := rowSize, zeroed;
      Repr := {this};
    }

    /** A new page object joins the others. */
    method Append(page: Page)
      requires Valid() && |pages| < TABLE_MAX_PAGES && page.Valid() && page.cells.Length == LeafCapacity(rowSize)
      requires {page, page.cells, page.keys, page.kids} !! Repr
      modifies this
      ensures Valid() && Repr == old(Repr) + {page, page.cells, page.keys, page.kids} && rootPid == old(rootPid)
      ensures pages == old(pages) + [page] && view == old(view) + [page.Val()]
    {
      var pid := |pages|;
      pages := pages + [page];
      view := view + [page.Val()];
      Repr := Repr + {page, page.cells, page.keys, page.kids};
      forall i | 0 <= i < |pages| ensures PageIn(i) {
        if i < pid {
          assert old(PageIn(i));
          PageStays(i);
        }
      }
      forall i, j | 0 <= i < |pages| && 0 <= j < |pages| && i != j ensures Apart(pages, i, j) {
        if i < pid && j < pid {
          assert Apart(old(pages), i, j);
        } else if i < pid {
          assert old(PageIn(i));
        } else {
          assert old(PageIn(j));
        }
      }
    }

    method AllocatePage() returns (pid: nat)
      requires Valid() && |pages| < TABLE_MAX_PAGES
      modifies this
      ensures Valid() && fresh(Repr - old(Repr)) && old(Repr) <= Repr && rootPid == old(rootPid)
      ensures pid == |old(pages)| && old(pages) <= pages && |pages| == pid + 1
      ensures |view| == pid + 1 && view[..pid] == old(view)
      ensures (zeroed ==> !view[pid].isRoot)
    {
      var rootByte: bool := *;
      var parentBytes: nat := *;
      var page := new Page(rowSize, rootByte && !zeroed, parentBytes);
      pid := |pages|;
      Append(page);
    }

    /** A page read from its bytes joins the others. */
    method AddLoaded(bytes: seq<Byte>, ghost n: Node)
      requires Valid() && |pages| < TABLE_MAX_PAGES && PageCodec.Loadable(bytes, n, rowSize)
      modifies this
      ensures Valid() && fresh(Repr - old(Repr)) && old(Repr) <= Repr && rootPid == old(rootPid)
      ensures view == old(view) + [n]
    {
      var page := new Page.Load(bytes, rowSize, n);
      Append(page);
    }

    method LeafInsert(pid: nat, load: nat, key: Key, row: Row)
      requires Valid() && pid < |view| && view[pid].Leaf? && |view[pid].cells| < load <= LeafCapacity(rowSize)
      modifies Repr
      ensures Valid() && pages == old(pages) && Repr == old(Repr) && rootPid == old(rootPid)
      ensures var n := old(view[pid]);
              view == old(view)[pid := Leaf(n.isRoot, n.parent, CellsWith(n.cells, key, row))]
    {
      assert PageIn(pid);
      var leaf := pages[pid];
      leaf.LeafInsert(load, key, row);
      view := view[pid := leaf.Val()];
      forall i | 0 <= i < |pages| ensures PageIn(i) {
        if i != pid {
          assert old(PageIn(i)) && Apart(pages, i, pid);
          PageStays(i);
        }
      }
    }

    method LeafSplit(pid: nat, newPid: nat, load: nat, key: Key, row: Row) returns (pivot: Key)
      requires Valid() && pid < |view| && newPid < |view| && pid != newPid && view[pid].Leaf?
      requires |view[pid].cells| == load && load > 0 && load % 2 == 0
      requires forall j :: 0 <= j < load ==> view[pid].cells[j].key != key
      modifies Repr
      ensures Valid() && pages == old(pages) && Repr == old(Repr) && rootPid == old(rootPid)
      ensures var n, r, t := old(view[pid]), old(view[newPid]), CellsWith(old(view[pid].cells), key, row);
              && view == old(view)[pid := Leaf(n.isRoot, n.parent, t[..load / 2 + 1])]
                                  [newPid := Leaf(r.isRoot, r.parent, t[load / 2 + 1..])]
              && pivot == t[load / 2].key
    {
      assert PageIn(pid) && PageIn(newPid) && Apart(pages, pid, newPid);
      var leaf, right := pages[pid], pages[newPid];
      pivot := leaf.LeafInsertAndSplit(load, key, row, right);
      view := view[pid := leaf.Val()][newPid := right.Val()];
      forall i | 0 <= i < |pages| ensures PageIn(i) {
        if i != pid && i != newPid {
          assert old(PageIn(i)) && Apart(pages, i, pid) && Apart(pages, i, newPid);
          PageStays(i);
        }
      }
    }

    method InnerInsert(pid: nat, load: nat, key: Key, left: nat, right: nat)
      requires Valid() && pid < |view| && view[pid].Inner? && 0 < |view[pid].keys| < load <= INNER_CAPACITY
      requires |view[pid].kids| == |view[pid].keys| + 1
      requires key !in view[pid].keys && view[pid].kids[Slot(view[pid].keys, key)] == left
      modifies Repr
      ensures Valid() && pages == old(pages) && Repr == old(Repr) && rootPid == old(rootPid)
      ensures var n := old(view[pid]);
              view == old(view)[pid :=
                Inner(n.isRoot, n.parent, KeysWith(n.keys, key), KidsWith(n.keys, n.kids, key, right))]
    {
      assert PageIn(pid);
      var inner := pages[pid];
      inner.InnerInsert(load, key, left, right);
      view := view[pid := inner.Val()];
      forall i | 0 <= i < |pages| ensures PageIn(i) {
        if i != pid {
          assert old(PageIn(i)) && Apart(pages, i, pid);
          PageStays(i);
        }
      }
    }

    method InnerSplit(pid: nat, newPid: nat, load: nat, key: Key, left: nat, right: nat) returns (pivot: Key)
      requires Valid() && pid < |view| && newPid < |view| && pid != newPid && view[pid].Inner?
      requires |view[pid].keys| == load && |view[pid].kids| == load + 1 && load > 0 && load % 2 == 0
      requires Sorted(view[pid].keys) && key !in view[pid].keys && view[pid].kids[Slot(view[pid].keys, key)] == left
      modifies Repr
      ensures Valid() && pages == old(pages) && Repr == old(Repr) && rootPid == old(rootPid)
      ensures var n, r := old(view[pid]), old(view[newPid]);
              var tk, tc := KeysWith(n.keys, key), KidsWith(n.keys, n.kids, key, right);
              && view == old(view)[pid := Inner(n.isRoot, n.parent, tk[..load / 2], tc[..load / 2 + 1])]
                                  [newPid := Inner(r.isRoot, r.parent, tk[load / 2 + 1..], tc[load / 2 + 1..])]
              && pivot == tk[load / 2]
    {
      ghost var n, r := view[pid], view[newPid];
      ghost var tk, tc := KeysWith(n.keys, key), KidsWith(n.keys, n.kids, key, right);
      pivot := SplitInto(pid, newPid, load, key, left, right, n, r, tk, tc);
    }

    /** The split of page `pid` into `newPid`, with the entries after the insertion named. */
    method SplitInto(pid: nat, newPid: nat, load: nat, key: Key, left: nat, right: nat,
                     ghost n: Node, ghost r: Node, ghost tk: seq<Key>, ghost tc: seq<nat>) returns (pivot: Key)
      requires Valid() && pid < |view| && newPid < |view| && pid != newPid && view[pid] == n && view[newPid] == r
               && n.Inner?
      requires |n.keys| == load && |n.kids| == load + 1 && load > 0 && load % 2 == 0
      requires Sorted(n.keys) && key !in n.keys && n.kids[Slot(n.keys, key)] == left
      requires tk == KeysWith(n.keys, key) && tc == KidsWith(n.keys, n.kids, key, right)
      modifies Repr
      ensures Valid() && pages == old(pages) && Repr == old(Repr) && rootPid == old(rootPid)
      ensures view == old(view)[pid := Inner(n.isRoot, n.parent, tk[..load / 2], tc[..load / 2 + 1])]
                               [newPid := Inner(r.isRoot, r.parent, tk[load / 2 + 1..], tc[load / 2 + 1..])]
      ensures pivot == tk[load / 2]
    {
      assert PageIn(pid) && PageIn(newPid) && Apart(pages, pid, newPid);
      var inner, newPage := pages[pid], pages[newPid];
      pivot := inner.InnerInsertAndSplit(load, key, left, right, newPage);
      view := view[pid := inner.Val()][newPid := newPage.Val()];
      forall i | 0 <= i < |pages| ensures PageIn(i) {
        if i != pid && i != newPid {
          assert old(PageIn(i)) && Apart(pages, i, pid) && Apart(pages, i, newPid);
          PageStays(i);
        }
      }
    }

    /** A fresh page becomes an inner node with one separator and two children. */
    method InnerFormat(pid: nat, key: Key, left: nat, right: nat)
      requires Valid() && pid < |view|
      modifies Repr
      ensures Valid() && pages == old(pages) && Repr == old(Repr) && rootPid == old(rootPid)
      ensures view == old(view)[pid := Inner(old(view[pid].isRoot), old(view[pid].parent), [key], [left, right])]
    {
      assert PageIn(pid);
      var inner := pages[pid];
      inner.ResetInner();
      inner.InnerInsert(INNER_CAPACITY, key, left, right);
      view := view[pid := inner.Val()];
      forall i | 0 <= i < |pages| ensures PageIn(i) {
        if i != pid {
          assert old(PageIn(i)) && Apart(pages, i, pid);
          PageStays(i);
        }
      }
    }

    method LeafFormat(pid: nat)
      requires Valid() && pid < |view|
      modifies Repr
      ensures Valid() && pages == old(pages) && Repr == old(Repr) && rootPid == old(rootPid)
      ensures view == old(view)[pid := Leaf(old(view[pid].isRoot), old(view[pid].parent), [])]
    {
      assert PageIn(pid);
      var leaf := pages[pid];
      leaf.ResetLeaf();
      view := view[pid := leaf.Val()];
      forall i | 0 <= i < |pages| ensures PageIn(i) {
        if i != pid {
          assert old(PageIn(i)) && Apart(pages, i, pid);
          PageStays(i);
        }
      }
    }

    method LinkTo(child: nat, parent: nat)
      requires Valid() && child < |view|
      modifies Repr
      ensures Valid() && pages == old(pages) && Repr == old(Repr) && rootPid == old(rootPid)
      ensures view == old(view)[child := WithParent(old(view[child]), parent)]
    {
      assert PageIn(child);
      pages[child].parent := parent;
      view := view[child := pages[child].Val()];
      forall i | 0 <= i < |pages| ensures PageIn(i) {
        if i != child {
          assert old(PageIn(i)) && Apart(pages, i, child);
          PageStays(i);
        }
      }
    }

    method SetRoot(pid: nat, isRoot: bool)
      requires Valid() && pid < |view|
      modifies Repr
      ensures Valid() && pages == old(pages) && Repr == old(Repr) && rootPid == old(rootPid)
      ensures view == old(view)[pid := WithRoot(old(view[pid]), isRoot)]
    {
      assert PageIn(pid);
      pages[pid].isRoot := isRoot;
      view := view[pid := pages[pid].Val()];
      forall i | 0 <= i < |pages| ensures PageIn(i) {
        if i != pid {
          assert old(PageIn(i)) && Apart(pages, i, pid);
          PageStays(i);
        }
      }
    }

    method SetRootPage(pid: nat)
      requires Valid()
      modifies this`rootPid
      ensures Valid() && rootPid == pid
    {
      rootPid := pid;
      forall i | 0 <= i < |pages| ensures PageIn(i) {
        assert old(PageIn(i));
      }
    }
  }

  /** Reads all pages of an opened file. */
  method LoadPages(store: PageFile.BTreePager, rowSize: nat, zeroed: bool, ghost nodes: seq<Node>)
      returns (pager: Pager)
    requires store.Valid() && PageCodec.Carries(store.contents, nodes, rowSize)
    modifies store`Repr, store.file`pos, store.pages
    ensures store.Valid() && store.contents == old(store.contents) && store.rootPid == old(store.rootPid)
    ensures fresh(store.Repr - old(store.Repr)) && fresh(pager.Repr) && pager.Repr !! store.Repr
    ensures pager.Valid() && pager.view == nodes && pager.rowSize == rowSize && pager.zeroed == zeroed
            && pager.rootPid == store.rootPid
  {
    pager := new Pager(rowSize, zeroed);
    for p := 0 to store.numPages
      invariant store.Valid() && store.contents == old(store.contents) && store.rootPid == old(store.rootPid)
      invariant fresh(store.Repr - old(store.Repr)) && fresh(pager.Repr) && pager.Repr !! store.Repr && fresh(pager)
      invariant pager.Valid() && pager.view == nodes[..p] && pager.rowSize == rowSize && pager.zeroed == zeroed
                && pager.rootPid == 0
    {
      var page := store.GetPage(p);
      assert PageCodec.Loadable(page[..], nodes[p], rowSize);
      pager.AddLoaded(page[..], nodes[p]);
      assert nodes[..p + 1] == nodes[..p] + [nodes[p]];
    }
    assert nodes[..store.numPages] == nodes;
    pager.SetRootPage(store.rootPid);
  }
}
