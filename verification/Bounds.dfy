/** How many pages and levels a tree of a given number of rows can have. */
module Bounds {
  import opened PageModel
  import opened Forest
  import opened Contents
  import opened Growth
  import opened Tally
  import opened RangeVisit

  lemma MulLess(a: int, b: int, h: nat)
    requires a * h < b * h
    ensures a < b
  {
    if a >= b {
      MulMono(b, a, h);
    }
  }

  lemma CountPrefix(nodes: seq<Node>, k: nat)
    requires 0 < k <= |nodes|
    ensures Count(nodes[..k]) == Plus(Count(nodes[..k - 1]), Weigh(nodes[k - 1]))
  {
    assert nodes[..k] == nodes[..k - 1] + [nodes[k - 1]];
    CountAppend(nodes[..k - 1], nodes[k - 1]);
  }

  lemma BelowRoot(f: Forest, ld: Loads, p: nat)
    requires Inv(f, Settled, ld) && p < |f.nodes|
    ensures p == f.root || f.marks[p].level < f.marks[f.root].level
  {
    assert PageOk(f, Settled, ld, p);
  }

  /** When the root is a leaf there is no other page. */
  lemma LoneLeaf(f: Forest, ld: Loads)
    requires Inv(f, Settled, ld) && f.nodes[f.root].Leaf?
    ensures |f.nodes| == 1
  {
    assert PageOk(f, Settled, ld, f.root);
    BelowRoot(f, ld, 0);
    if |f.nodes| > 1 {
      BelowRoot(f, ld, 1);
    }
  }

  /** Below an inner root every leaf is half full and every inner page has a separator; `p` may be counted in full. */
  lemma {:induction false} FilledPages(f: Forest, ld: Loads, p: nat, k: nat)
    requires Inv(f, Settled, ld) && f.nodes[f.root].Inner? && k <= |f.nodes| && p < |f.nodes| && f.nodes[p].Leaf?
    ensures var t := Count(f.nodes[..k]);
            && t.cells >= t.leaves * (ld.leaf / 2) + (if p < k then |f.nodes[p].cells| - ld.leaf / 2 else 0)
            && t.keys >= t.inners
  {
    if k > 0 {
      FilledPages(f, ld, p, k - 1);
      CountPrefix(f.nodes, k);
      assert PageOk(f, Settled, ld, k - 1);
      MulStep(Count(f.nodes[..k - 1]).leaves, ld.leaf / 2);
    }
  }

  lemma SpaceArithmetic(n: nat, leaves: int, rows: nat, h: nat)
    requires n + 1 <= 2 * leaves && leaves * h <= rows
    ensures (n + 1) * (2 * h) <= 4 * rows
  {
    MulMono(n + 1, 2 * leaves, 2 * h);
    assert (2 * leaves) * (2 * h) == 4 * (leaves * h);
  }

  /** A tree of more than one page has at most 4N/L - 1 pages for its N rows. */
  lemma SpaceBound(f: Forest, ld: Loads, rows: nat)
    requires Inv(f, Settled, ld) && GoodLoads(ld) && Tallied(f.nodes, Settled, rows)
    ensures |f.nodes| == 1 || (|f.nodes| + 1) * ld.leaf <= 4 * rows
  {
    if f.nodes[f.root].Leaf? {
      LoneLeaf(f, ld);
    } else {
      var p := SomeLeaf(f, ld, f.root);
      FilledPages(f, ld, p, |f.nodes|);
      assert f.nodes[..|f.nodes|] == f.nodes;
      var t, h := Count(f.nodes), ld.leaf / 2;
      assert PageOk(f, Settled, ld, p);
      SpaceArithmetic(|f.nodes|, t.leaves, rows, h);
    }
  }

  /** Every subtree has a leaf. */
  lemma {:induction false} SomeLeaf(f: Forest, ld: Loads, p: nat) returns (leaf: nat)
    requires Inv(f, Settled, ld) && p < |f.nodes|
    ensures leaf < |f.nodes| && f.nodes[leaf].Leaf?
    decreases f.marks[p].level
  {
    assert PageOk(f, Settled, ld, p);
    if f.nodes[p].Leaf? {
      leaf := p;
    } else {
      assert KidOk(f.marks[p], f.nodes[p].keys, f.nodes[p].kids, f.marks, 0);
      leaf := SomeLeaf(f, ld, f.nodes[p].kids[0]);
    }
  }

  /** Separators beyond the first, over the inner pages among the first `k` that lie above a level. */
  ghost function Slack(f: Forest, above: int, k: nat): int
    requires k <= |f.nodes| == |f.marks|
  {
    if k == 0 then 0
    else Slack(f, above, k - 1)
         + if f.nodes[k - 1].Inner? && f.marks[k - 1].level > above then |f.nodes[k - 1].keys| - 1 else 0
  }

  lemma {:induction false} SlackTallies(f: Forest, ld: Loads, k: nat)
    requires Inv(f, Settled, ld) && k <= |f.nodes|
    ensures Slack(f, 0, k) == Count(f.nodes[..k]).keys - Count(f.nodes[..k]).inners
  {
    if k > 0 {
      SlackTallies(f, ld, k - 1);
      CountPrefix(f.nodes, k);
      assert PageOk(f, Settled, ld, k - 1);
    }
  }

  lemma {:induction false} SlackStep(f: Forest, ld: Loads, above: int, q: nat, k: nat)
    requires Inv(f, Settled, ld) && k <= |f.nodes| && q < |f.nodes| && f.nodes[q].Inner?
             && f.marks[q].level == above + 1
    ensures Slack(f, above, k) >= Slack(f, above + 1, k) + (if q < k then |f.nodes[q].keys| - 1 else 0)
    ensures Slack(f, above + 1, k) >= 0
  {
    if k > 0 {
      SlackStep(f, ld, above, q, k - 1);
      assert PageOk(f, Settled, ld, k - 1);
    }
  }

  /** A climb needs one page beyond those the full pages above account for. */
  lemma {:induction false} NeedBound(f: Forest, ld: Loads, c: nat)
    requires Inv(f, Settled, ld) && GoodLoads(ld) && c < |f.nodes|
    ensures ClimbNeed(f, Settled, ld, c) <= 1 + Slack(f, f.marks[c].level, |f.nodes|)
    decreases f.marks[f.root].level - f.marks[c].level
  {
    if c == f.root {
      SlackNat(f, ld, f.marks[c].level, |f.nodes|);
    } else {
      ParentLevel(f, Settled, ld, c);
      var q := f.nodes[c].parent;
      assert PageOk(f, Settled, ld, q);
      SlackStep(f, ld, f.marks[c].level, q, |f.nodes|);
      NeedBound(f, ld, q);
    }
  }

  lemma {:induction false} SlackNat(f: Forest, ld: Loads, above: int, k: nat)
    requires Inv(f, Settled, ld) && k <= |f.nodes|
    ensures Slack(f, above, k) >= 0
  {
    if k > 0 {
      SlackNat(f, ld, above, k - 1);
      assert PageOk(f, Settled, ld, k - 1);
    }
  }

  lemma FullLeafRoom(f: Forest, ld: Loads, rows: nat, p: nat)
    requires Inv(f, Settled, ld) && GoodLoads(ld) && Tallied(f.nodes, Settled, rows) && rows < 250 * ld.leaf
    requires p < |f.nodes| && f.nodes[p].Leaf? && |f.nodes[p].cells| == ld.leaf && f.nodes[f.root].Inner?
    ensures |f.nodes| + 1 + ClimbNeed(f, Settled, ld, p) <= TABLE_MAX_PAGES
  {
    var t, h := Count(f.nodes), ld.leaf / 2;
    assert f.nodes[..|f.nodes|] == f.nodes;
    FilledPages(f, ld, p, |f.nodes|);
    assert PageOk(f, Settled, ld, p);
    SlackTallies(f, ld, |f.nodes|);
    NeedBound(f, ld, p);
    MulStep(t.leaves, h);
    MulLess(t.leaves + 1, 500, h);
  }

  /** Below 250 rows per unit of leaf load no insert runs out of pages. */
  lemma CapacityBound(f: Forest, ld: Loads, rows: nat, p: nat)
    requires Inv(f, Settled, ld) && GoodLoads(ld) && Tallied(f.nodes, Settled, rows) && rows < 250 * ld.leaf
    requires p < |f.nodes| && f.nodes[p].Leaf?
    ensures |f.nodes| + LeafNeed(f, ld, p) <= TABLE_MAX_PAGES
  {
    assert PageOk(f, Settled, ld, p);
    if f.nodes[f.root].Leaf? {
      LoneLeaf(f, ld);
    } else if |f.nodes[p].cells| == ld.leaf {
      FullLeafRoom(f, ld, rows, p);
    }
  }

  function Pow(b: nat, e: nat): nat {
    if e == 0 then 1 else b * Pow(b, e - 1)
  }

  lemma TimesAssociates(a: int, b: int, c: int)
    ensures a * (b * c) == (a * b) * c
  {
  }

  /** `Pow` multiplies as a power does. */
  lemma {:induction false} PowAdds(b: nat, m: nat, n: nat)
    ensures Pow(b, 1) == b
    ensures Pow(b, m + n) == Pow(b, m) * Pow(b, n)
  {
    assert Pow(b, 1) == b * Pow(b, 0) == b * 1;
    if m == 0 {
      assert Pow(b, m) * Pow(b, n) == 1 * Pow(b, n);
    } else {
      var x, y, z := Pow(b, m - 1), Pow(b, n), Pow(b, m - 1 + n);
      PowAdds(b, m - 1, n);
      assert z == x * y && Pow(b, m + n) == b * z;
      TimesAssociates(b, x, y);
    }
  }

  ghost function KeysIn(rows: map<Key, Row>, lo: int, hi: int): set<Key> {
    set k | k in rows && lo < k <= hi
  }

  lemma PartsAdd(rows: map<Key, Row>, lo: int, mid: int, hi: int)
    requires lo <= mid <= hi
    ensures |KeysIn(rows, lo, hi)| == |KeysIn(rows, lo, mid)| + |KeysIn(rows, mid, hi)|
  {
    assert KeysIn(rows, lo, hi) == KeysIn(rows, lo, mid) + KeysIn(rows, mid, hi);
  }

  /** A set that contains the keys of sorted cells has at least as many elements. */
  lemma {:induction false} CellKeysCount(cells: seq<Cell>, s: set<Key>)
    requires SortedCells(cells) && forall i :: 0 <= i < |cells| ==> cells[i].key in s
    ensures |s| >= |cells|
  {
    if |cells| > 0 {
      var last := cells[|cells| - 1].key;
      CellKeysCount(cells[..|cells| - 1], s - {last});
      assert |s - {last}| == |s| - 1;
    }
  }

  lemma LeafKeys(f: Forest, ld: Loads, rows: map<Key, Row>, p: nat)
    requires Inv(f, Settled, ld) && Holds(f.nodes, rows) && p < |f.nodes| && f.nodes[p].Leaf?
    ensures |KeysIn(rows, f.marks[p].lo, f.marks[p].hi)| >= |f.nodes[p].cells|
  {
    assert PageOk(f, Settled, ld, p);
    var cells := f.nodes[p].cells;
    forall i | 0 <= i < |cells| ensures cells[i].key in KeysIn(rows, f.marks[p].lo, f.marks[p].hi) {
      assert HasCell(f.nodes, p, cells[i]);
      assert Stored(f.nodes, cells[i]);
    }
    CellKeysCount(cells, KeysIn(rows, f.marks[p].lo, f.marks[p].hi));
  }

  /** A page other than the root has (M/2 + 1)^level * L/2 keys below it. */
  lemma {:induction false} SubtreeKeys(f: Forest, ld: Loads, rows: map<Key, Row>, p: nat)
    requires Inv(f, Settled, ld) && Holds(f.nodes, rows) && p < |f.nodes| && p != f.root
    ensures |KeysIn(rows, f.marks[p].lo, f.marks[p].hi)| >= Pow(ld.inner / 2 + 1, f.marks[p].level) * (ld.leaf / 2)
    decreases f.marks[p].level, 0
  {
    assert PageOk(f, Settled, ld, p);
    if f.nodes[p].Leaf? {
      LeafKeys(f, ld, rows, p);
    } else {
      var k, x := |f.nodes[p].kids|, Pow(ld.inner / 2 + 1, f.marks[p].level - 1) * (ld.leaf / 2);
      ChildrenKeys(f, ld, rows, p, k);
      MulMono(ld.inner / 2 + 1, k, x);
      PowTimes(ld.inner / 2 + 1, f.marks[p].level, ld.leaf / 2);
    }
  }

  lemma PowTimes(b: nat, e: nat, h: nat)
    requires e > 0
    ensures b * (Pow(b, e - 1) * h) == Pow(b, e) * h
  {
    assert b * (Pow(b, e - 1) * h) == (b * Pow(b, e - 1)) * h;
  }

  /** The first `k` children of an inner page together hold `k` times the least a child holds. */
  lemma {:induction false} ChildrenKeys(f: Forest, ld: Loads, rows: map<Key, Row>, p: nat, k: nat)
    requires Inv(f, Settled, ld) && Holds(f.nodes, rows) && p < |f.nodes| && f.nodes[p].Inner? && k <= |f.nodes[p].kids|
    requires f.marks[p].level > 0 && |f.nodes[p].kids| == |f.nodes[p].keys| + 1
    ensures |KeysIn(rows, f.marks[p].lo, Edge(f.marks[p], f.nodes[p].keys, k))|
            >= k * (Pow(ld.inner / 2 + 1, f.marks[p].level - 1) * (ld.leaf / 2))
    decreases f.marks[p].level - 1, 1, k
  {
    if k > 0 {
      var m, keys, x := f.marks[p], f.nodes[p].keys, Pow(ld.inner / 2 + 1, f.marks[p].level - 1) * (ld.leaf / 2);
      ChildrenKeys(f, ld, rows, p, k - 1);
      ChildEdges(f, ld, p, k - 1);
      EdgesGrow(f, ld, p, 0, k - 1);
      EdgesGrow(f, ld, p, k - 1, k);
      SubtreeKeys(f, ld, rows, f.nodes[p].kids[k - 1]);
      PartsAdd(rows, m.lo, Edge(m, keys, k - 1), Edge(m, keys, k));
      MulStep(k - 1, x);
    }
  }

  /** A tree of height h >= 1 holds at least 2 * (M/2 + 1)^(h - 1) * L/2 rows. */
  lemma HeightBound(f: Forest, ld: Loads, rows: map<Key, Row>)
    requires Inv(f, Settled, ld) && Holds(f.nodes, rows) && f.marks[f.root].level >= 1
    ensures |rows| >= 2 * (Pow(ld.inner / 2 + 1, f.marks[f.root].level - 1) * (ld.leaf / 2))
  {
    var m := f.marks[f.root];
    assert PageOk(f, Settled, ld, f.root);
    var k := |f.nodes[f.root].kids|;
    ChildrenKeys(f, ld, rows, f.root, k);
    MulMono(2, k, Pow(ld.inner / 2 + 1, m.level - 1) * (ld.leaf / 2));
    assert KeysIn(rows, -1, UINT32_MAX) == rows.Keys;
  }
}
