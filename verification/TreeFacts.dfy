/** What holds of the pages of every valid tree, in the terms of a reader of the pages. */
module TreeFacts {
  import opened PageModel
  import opened Forest
  import opened Contents
  import opened Bounds
  import opened Paths
  import opened BPlusTree

  /** A leaf: sorted, within the load and the page, and half full unless it is the root. */
  lemma LeafFacts(t: BPlusTree, p: nat)
    requires t.Valid() && p < |t.pager.view| && t.pager.view[p].Leaf?
    ensures var cells := t.pager.view[p].cells;
            && |cells| <= t.leafLoad && |cells| * (4 + t.rowSize) <= 4078
            && (p != t.pager.rootPid ==> 2 * |cells| >= t.leafLoad || 4078 < (2 * |cells| + 2) * (4 + t.rowSize))
            && (forall i, j :: 0 <= i < j < |cells| ==> cells[i].key < cells[j].key)
            && (forall i :: 0 <= i < |cells| ==> |cells[i].row| == t.rowSize)
  {
    var cells := t.pager.view[p].cells;
    assert PageOk(t.State(), Settled, t.EffectiveLoads(), p);
    LeafLoadMeans(t.rowSize, t.leafLoad, t.innerLoad, |cells|);
    HalfLeaf(t.rowSize, t.leafLoad, t.innerLoad, |cells|);
    forall i | 0 <= i < |cells| ensures |cells[i].row| == t.rowSize {
      assert HasCell(t.pager.view, p, cells[i]);
      assert Stored(t.pager.view, cells[i]);
    }
  }

  lemma HalfLeaf(rowSize: nat, leafLoad: nat, innerLoad: nat, n: nat)
    requires GoodLoads(LoadsInForce(rowSize, leafLoad, innerLoad))
    ensures n >= LoadsInForce(rowSize, leafLoad, innerLoad).leaf / 2 ==>
              2 * n >= leafLoad || 4078 < (2 * n + 2) * (4 + rowSize)
  {
    var l := LoadsInForce(rowSize, leafLoad, innerLoad).leaf;
    LeafLoadMeans(rowSize, leafLoad, innerLoad, l);
    if n >= l / 2 {
      MulMono(l + 2, 2 * n + 2, 4 + rowSize);
    }
  }

  /** An inner page: sorted, within the load and the page, half full unless it is the root, named by its children. */
  lemma InnerFacts(t: BPlusTree, p: nat)
    requires t.Valid() && p < |t.pager.view| && t.pager.view[p].Inner?
    ensures var keys, kids := t.pager.view[p].keys, t.pager.view[p].kids;
            && 1 <= |keys| <= t.innerLoad && |keys| <= 338 && |kids| == |keys| + 1
            && (p != t.pager.rootPid ==> 2 * |keys| >= t.innerLoad || 2 * |keys| >= 338)
            && (forall i, j :: 0 <= i < j < |keys| ==> keys[i] < keys[j])
            && (forall i :: 0 <= i < |kids| ==> kids[i] < |t.pager.view| && t.pager.view[kids[i]].parent == p)
  {
    var keys, kids := t.pager.view[p].keys, t.pager.view[p].kids;
    assert PageOk(t.State(), Settled, t.EffectiveLoads(), p);
    InnerLoadMeans(t.rowSize, t.leafLoad, t.innerLoad, |keys|);
    forall i | 0 <= i < |kids| ensures kids[i] < |t.pager.view| && t.pager.view[kids[i]].parent == p {
      assert ParentIs(t.State(), kids[i], p);
    }
  }

  /** Every page but the root is a child of the page it names; only the root has the root byte if memory is zeroed. */
  lemma LinkFacts(t: BPlusTree, p: nat)
    requires t.Valid() && p < |t.pager.view|
    ensures |t.pager.view| <= 1000 && t.pager.rootPid < |t.pager.view|
    ensures p == t.pager.rootPid ==> t.pager.view[p].parent == 0xFFFF_FFFF_FFFF_FFFF && t.pager.view[p].isRoot
    ensures p != t.pager.rootPid ==>
              var q := t.pager.view[p].parent;
              q < |t.pager.view| && t.pager.view[q].Inner? && p in t.pager.view[q].kids
    ensures p != t.pager.rootPid && t.pager.zeroed ==> !t.pager.view[p].isRoot
  {
    var f := t.State();
    assert RootOk(f, Settled) && (p != f.root ==> Linked(f, p));
  }

  /** With a leaf load that fits, N rows take one page or at most 4N/L - 1. */
  lemma TreeSize(t: BPlusTree)
    requires t.Valid() && t.leafLoad % 2 == 0 && t.leafLoad * (4 + t.rowSize) <= 4078
    ensures |t.pager.view| == 1 || (|t.pager.view| + 1) * t.leafLoad <= 4 * |t.rows|
  {
    LoadFits(t);
    SpaceBound(t.State(), t.EffectiveLoads(), |t.rows|);
  }

  lemma LoadFits(t: BPlusTree)
    requires t.Valid() && t.leafLoad % 2 == 0 && t.leafLoad * (4 + t.rowSize) <= 4078
    ensures t.EffectiveLoads().leaf == t.leafLoad
  {
    var l, c := t.leafLoad, LeafCapacity(t.rowSize);
    LeafCapacityFills(t.rowSize);
    if c < l {
      MulMono(c + 2, l, 4 + t.rowSize);
    }
  }

  /** With loads that fit, a tree whose leaves lie `h` levels below the root has at least 2 (M/2 + 1)^(h-1) L/2 rows. */
  lemma TreeHeight(t: BPlusTree, path: seq<nat>, leaf: nat)
    requires t.Valid() && t.leafLoad % 2 == 0 && t.leafLoad * (4 + t.rowSize) <= 4078 && t.innerLoad <= 338
    requires IsPath(t.State(), path, t.pager.rootPid, leaf) && t.pager.view[leaf].Leaf? && |path| >= 2
    ensures |t.rows| >= 2 * (Pow(t.innerLoad / 2 + 1, |path| - 2) * (t.leafLoad / 2))
  {
    LoadFits(t);
    PathHeight(t.State(), t.EffectiveLoads(), t.rows, path, leaf);
    assert t.EffectiveLoads() == Loads(t.leafLoad, t.innerLoad);
  }

  lemma PathHeight(f: Forest, ld: Loads, rows: map<Key, Row>, path: seq<nat>, leaf: nat)
    requires Inv(f, Settled, ld) && Holds(f.nodes, rows) && IsPath(f, path, f.root, leaf)
    requires f.nodes[leaf].Leaf? && |path| >= 2
    ensures |rows| >= 2 * (Pow(ld.inner / 2 + 1, |path| - 2) * (ld.leaf / 2))
  {
    PathNests(f, ld, path, f.root, leaf);
    assert PageOk(f, Settled, ld, leaf);
    HeightBound(f, ld, rows);
  }
}
