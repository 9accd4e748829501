/** What a pruned walk below a page has to find: the cells in range and the pages whose intervals meet it. */
module RangeVisit {
  import opened PageModel
  import opened Forest
  import opened Contents

  /** `q` is `p` or lies in the subtree of `p`. */
  ghost predicate Under(f: Forest, q: nat, p: nat)
    requires p < |f.marks|
  {
    && q < |f.nodes| && q < |f.marks|
    && f.marks[q].level <= f.marks[p].level && f.marks[p].lo <= f.marks[q].lo && f.marks[q].hi <= f.marks[p].hi
  }

  /** The interval (lo, hi] has a key in [min, max]. */
  predicate Meets(m: Mark, min: Key, max: Key) {
    min <= max && m.hi >= min && m.lo < max
  }

  /** Post-order: further left first, and of pages with one right edge the lower first. No page precedes itself. */
  ghost predicate Before(f: Forest, p: nat, q: nat) {
    && p < |f.marks| && q < |f.marks|
    && (f.marks[p].hi < f.marks[q].hi || (f.marks[p].hi == f.marks[q].hi && f.marks[p].level < f.marks[q].level))
  }

  ghost predicate PostOrder(f: Forest, pages: seq<nat>) {
    forall i, j :: 0 <= i < j < |pages| ==> Before(f, pages[i], pages[j])
  }

  /** The stored cells with lo < key <= hi and min <= key <= max, in ascending order. */
  ghost predicate CellsBetween(f: Forest, lo: int, hi: int, min: Key, max: Key, cells: seq<Cell>) {
    && SortedCells(cells)
    && (forall c: Cell :: c in cells <==> Stored(f.nodes, c) && lo < c.key <= hi && min <= c.key <= max)
  }

  /** The non-empty pages up to `level` inside (lo, hi] whose interval meets [min, max], each once, in post-order. */
  ghost predicate PagesBetween(f: Forest, level: int, lo: int, hi: int, min: Key, max: Key, pages: seq<nat>)
    requires |f.marks| == |f.nodes|
  {
    && PostOrder(f, pages)
    && (forall q: nat :: q in pages <==> q < |f.nodes| && Between(f, level, lo, hi, q) && Meets(f.marks[q], min, max))
  }

  ghost predicate Between(f: Forest, level: int, lo: int, hi: int, q: nat)
    requires q < |f.nodes| == |f.marks|
  {
    f.marks[q].level <= level && lo <= f.marks[q].lo && f.marks[q].hi <= hi && |NodeKeys(f.nodes[q])| > 0
  }

  /** Every page has an ancestor on each level above it. */
  lemma {:induction false} Ancestor(f: Forest, ld: Loads, q: nat, level: nat) returns (a: nat)
    requires Inv(f, Settled, ld) && q < |f.nodes| && f.marks[q].level <= level <= f.marks[f.root].level
    ensures a < |f.nodes| && f.marks[a].level == level && Under(f, q, a)
    decreases level - f.marks[q].level
  {
    if f.marks[q].level == level {
      a := q;
    } else {
      ParentOwns(f, ld, q);
      a := Ancestor(f, ld, f.nodes[q].parent, level);
    }
  }

  /** A page strictly inside the subtree of `p` lies under one of its children. */
  lemma UnderSomeChild(f: Forest, ld: Loads, p: nat, q: nat) returns (k: nat)
    requires Inv(f, Settled, ld) && p < |f.nodes| && f.nodes[p].Inner? && Under(f, q, p)
             && f.marks[q].level < f.marks[p].level
    ensures k < |f.nodes[p].kids| && f.nodes[p].kids[k] < |f.nodes| && Under(f, q, f.nodes[p].kids[k])
  {
    assert PageOk(f, Settled, ld, p) && PageOk(f, Settled, ld, q);
    var c := Ancestor(f, ld, q, f.marks[p].level - 1);
    ParentOwns(f, ld, c);
    UniqueOwner(f, ld, f.nodes[c].parent, p, f.marks[q].hi);
    k :| 0 <= k < |f.nodes[p].kids| && f.nodes[p].kids[k] == c;
  }

  /** The mark of a child, by edges. */
  lemma ChildEdges(f: Forest, ld: Loads, p: nat, k: nat)
    requires Inv(f, Settled, ld) && p < |f.nodes| && f.nodes[p].Inner? && k < |f.nodes[p].kids|
    ensures |f.nodes[p].kids| == |f.nodes[p].keys| + 1
    ensures var c, m, keys := f.nodes[p].kids[k], f.marks[p], f.nodes[p].keys;
            && m.level > 0 && c < |f.nodes| && c != f.root
            && f.marks[c] == Mark(m.level - 1, Edge(m, keys, k), Edge(m, keys, k + 1))
  {
    assert PageOk(f, Settled, ld, p);
    assert KidOk(f.marks[p], f.nodes[p].keys, f.nodes[p].kids, f.marks, k);
    assert ParentIs(f, f.nodes[p].kids[k], p);
  }

  /** Edges grow. */
  lemma EdgesGrow(f: Forest, ld: Loads, p: nat, i: nat, j: nat)
    requires Inv(f, Settled, ld) && p < |f.nodes| && f.nodes[p].Inner? && i <= j <= |f.nodes[p].keys| + 1
    ensures Edge(f.marks[p], f.nodes[p].keys, i) <= Edge(f.marks[p], f.nodes[p].keys, j)
    ensures i < j ==> Edge(f.marks[p], f.nodes[p].keys, i) < Edge(f.marks[p], f.nodes[p].keys, j)
  {
    assert PageOk(f, Settled, ld, p);
  }

  /** Walking child `k` extends the cells found up to its left edge to its right edge. */
  lemma CellsExtend(f: Forest, lo: int, mid: int, hi: int, min: Key, max: Key, cells: seq<Cell>, more: seq<Cell>)
    requires lo <= mid <= hi && CellsBetween(f, lo, mid, min, max, cells) && CellsBetween(f, mid, hi, min, max, more)
    ensures CellsBetween(f, lo, hi, min, max, cells + more)
  {
    var all := cells + more;
    forall i, j | 0 <= i < j < |all| ensures all[i].key < all[j].key {
      if i < |cells| <= j {
        assert cells[i] in cells && more[j - |cells|] in more;
      }
    }
  }

  lemma PagesExtend(f: Forest, ld: Loads, p: nat, i: nat, k: nat, min: Key, max: Key, pages: seq<nat>, more: seq<nat>)
    requires Inv(f, Settled, ld) && p < |f.nodes| && f.nodes[p].Inner? && i <= k <= |f.nodes[p].keys|
    requires var m, keys := f.marks[p], f.nodes[p].keys;
             && PagesBetween(f, m.level - 1, Edge(m, keys, i), Edge(m, keys, k), min, max, pages)
             && PagesBetween(f, m.level - 1, Edge(m, keys, k), Edge(m, keys, k + 1), min, max, more)
    ensures PagesBetween(f, f.marks[p].level - 1, Edge(f.marks[p], f.nodes[p].keys, i),
            Edge(f.marks[p], f.nodes[p].keys, k + 1), min, max, pages + more)
  {
    var m, keys, level := f.marks[p], f.nodes[p].keys, f.marks[p].level - 1;
    var lo, mid, hi := Edge(m, keys, i), Edge(m, keys, k), Edge(m, keys, k + 1);
    EdgesGrow(f, ld, p, i, k);
    EdgesGrow(f, ld, p, k, k + 1);
    EdgesGrow(f, ld, p, 0, i);
    EdgesGrow(f, ld, p, k + 1, |keys| + 1);
    forall q: nat | q < |f.nodes| && Between(f, level, lo, hi, q)
      ensures Between(f, level, lo, mid, q) || Between(f, level, mid, hi, q)
    {
      assert PageOk(f, Settled, ld, p);
      var c := UnderSomeChild(f, ld, p, q);
      ChildEdges(f, ld, p, c);
      if c <= k {
        EdgesGrow(f, ld, p, c, k);
        if c < k { EdgesGrow(f, ld, p, c + 1, k); }
      } else {
        EdgesGrow(f, ld, p, k + 1, c);
      }
    }
    OrderConcat(f, ld, mid, pages, more);
  }

  /** Pages left of a key come before pages right of it. */
  lemma OrderConcat(f: Forest, ld: Loads, mid: int, pages: seq<nat>, more: seq<nat>)
    requires Inv(f, Settled, ld) && PostOrder(f, pages) && PostOrder(f, more)
    requires forall q: nat :: q in pages ==> q < |f.nodes| && f.marks[q].hi <= mid
    requires forall q: nat :: q in more ==> q < |f.nodes| && mid <= f.marks[q].lo
    ensures PostOrder(f, pages + more)
  {
    var all := pages + more;
    forall i, j | 0 <= i < j < |all| ensures Before(f, all[i], all[j]) {
      if i < |pages| <= j {
        assert pages[i] in pages && more[j - |pages|] in more;
        assert PageOk(f, Settled, ld, all[j]);
      }
    }
  }

  /** Children `i` to `e - 1` are the ones the walk descends into. */
  ghost predicate Window(keys: seq<Key>, min: Key, max: Key, i: nat, e: nat) {
    && i < e <= |keys| + 1
    && (i > 0 ==> keys[i - 1] < min) && (i < |keys| ==> keys[i] >= min)
    && (e <= |keys| ==> keys[e - 1] >= max) && (e >= 2 ==> keys[e - 2] < max)
  }

  /** No cell in range lies outside the window. */
  lemma WindowCells(f: Forest, m: Mark, keys: seq<Key>, min: Key, max: Key, i: nat, e: nat, cells: seq<Cell>)
    requires Sorted(keys) && Window(keys, min, max, i, e) && forall j :: 0 <= j < |keys| ==> m.lo < keys[j] < m.hi
    requires CellsBetween(f, Edge(m, keys, i), Edge(m, keys, e), min, max, cells)
    ensures CellsBetween(f, m.lo, m.hi, min, max, cells)
  {
  }

  /** A child in the window has a key in range in its interval. */
  lemma WindowMeets(m: Mark, keys: seq<Key>, min: Key, max: Key, i: nat, e: nat, k: nat)
    requires Sorted(keys) && Window(keys, min, max, i, e) && Meets(m, min, max) && i <= k < e && m.level > 0
    ensures Meets(Mark(m.level - 1, Edge(m, keys, k), Edge(m, keys, k + 1)), min, max)
  {
  }

  /** No page whose interval meets the range lies outside the window. */
  lemma WindowPages(f: Forest, ld: Loads, p: nat, min: Key, max: Key, i: nat, e: nat, pages: seq<nat>)
    requires Inv(f, Settled, ld) && p < |f.nodes| && f.nodes[p].Inner? && Meets(f.marks[p], min, max)
    requires Window(f.nodes[p].keys, min, max, i, e)
    requires PagesBetween(f, f.marks[p].level - 1, Edge(f.marks[p], f.nodes[p].keys, i),
             Edge(f.marks[p], f.nodes[p].keys, e), min, max, pages)
    ensures PagesBetween(f, f.marks[p].level, f.marks[p].lo, f.marks[p].hi, min, max, pages + [p])
  {
    var m, keys, level := f.marks[p], f.nodes[p].keys, f.marks[p].level;
    assert PageOk(f, Settled, ld, p);
    EdgesGrow(f, ld, p, 0, i);
    EdgesGrow(f, ld, p, e, |keys| + 1);
    forall q: nat | q < |f.nodes| && Between(f, level, m.lo, m.hi, q) && Meets(f.marks[q], min, max)
      ensures q == p || Between(f, level - 1, Edge(m, keys, i), Edge(m, keys, e), q)
    {
      assert PageOk(f, Settled, ld, q);
      if f.marks[q].level == level {
        UniqueOwner(f, ld, p, q, f.marks[q].hi);
      } else {
        var c := UnderSomeChild(f, ld, p, q);
        ChildEdges(f, ld, p, c);
        InWindow(f, ld, p, min, max, i, e, c);
      }
    }
    forall x | 0 <= x < |pages| ensures Before(f, pages[x], p) {
      assert pages[x] in pages;
    }
    assert forall q: nat :: q in pages + [p] <==> q in pages || q == p;
  }

  /** A child that meets the range is in the window. */
  lemma InWindow(f: Forest, ld: Loads, p: nat, min: Key, max: Key, i: nat, e: nat, c: nat)
    requires Inv(f, Settled, ld) && p < |f.nodes| && f.nodes[p].Inner? && Window(f.nodes[p].keys, min, max, i, e)
             && c <= |f.nodes[p].keys|
    requires Edge(f.marks[p], f.nodes[p].keys, c) < max && Edge(f.marks[p], f.nodes[p].keys, c + 1) >= min
    ensures i <= c < e
    ensures Edge(f.marks[p], f.nodes[p].keys, i) <= Edge(f.marks[p], f.nodes[p].keys, c)
    ensures Edge(f.marks[p], f.nodes[p].keys, c + 1) <= Edge(f.marks[p], f.nodes[p].keys, e)
  {
    assert PageOk(f, Settled, ld, p);
    if c < i {
      EdgesGrow(f, ld, p, c + 1, i);
    }
    if e <= c {
      EdgesGrow(f, ld, p, e, c);
    }
    EdgesGrow(f, ld, p, i, if i <= c then c else i);
    EdgesGrow(f, ld, p, if c < e then c + 1 else e, e);
  }

  /** The cells of one leaf in range are those its interval and the range allow. */
  lemma LeafCells(f: Forest, ld: Loads, p: nat, min: Key, max: Key, cells: seq<Cell>)
    requires Inv(f, Settled, ld) && p < |f.nodes| && f.nodes[p].Leaf? && SortedCells(cells)
    requires forall c: Cell :: c in cells <==> c in f.nodes[p].cells && min <= c.key <= max
    ensures CellsBetween(f, f.marks[p].lo, f.marks[p].hi, min, max, cells)
  {
    assert PageOk(f, Settled, ld, p);
    forall c: Cell ensures c in cells <==> Stored(f.nodes, c) && Owns(f, p, c.key) && min <= c.key <= max {
      if Owns(f, p, c.key) {
        OwnerHolds(f, ld, p, c);
      }
    }
  }

  lemma LeafPages(f: Forest, ld: Loads, p: nat, min: Key, max: Key)
    requires Inv(f, Settled, ld) && p < |f.nodes| && f.nodes[p].Leaf? && Meets(f.marks[p], min, max)
    ensures PagesBetween(f, f.marks[p].level, f.marks[p].lo, f.marks[p].hi, min, max,
            if |f.nodes[p].cells| == 0 then [] else [p])
  {
    assert PageOk(f, Settled, ld, p);
    forall q: nat | q < |f.nodes| && Between(f, 0, f.marks[p].lo, f.marks[p].hi, q) ensures q == p {
      assert PageOk(f, Settled, ld, q);
      UniqueOwner(f, ld, p, q, f.marks[q].hi);
    }
  }

  /** From the root, the whole tree is in view. */
  lemma RootView(f: Forest, ld: Loads, q: nat)
    requires Inv(f, Settled, ld) && q < |f.nodes|
    ensures f.marks[q].level <= f.marks[f.root].level && -1 == f.marks[f.root].lo <= f.marks[q].lo
            && f.marks[q].hi <= f.marks[f.root].hi == UINT32_MAX
  {
    assert PageOk(f, Settled, ld, q);
  }

  /** Nothing fits in an empty interval. */
  lemma NothingBetween(f: Forest, ld: Loads, level: int, x: int, min: Key, max: Key)
    requires Inv(f, Settled, ld)
    ensures CellsBetween(f, x, x, min, max, []) && PagesBetween(f, level, x, x, min, max, [])
  {
    forall q: nat | q < |f.nodes| ensures !Between(f, level, x, x, q) {
      assert PageOk(f, Settled, ld, q);
    }
  }

  lemma WalkBegins(f: Forest, ld: Loads, p: nat, i: nat, min: Key, max: Key)
    requires Inv(f, Settled, ld) && p < |f.nodes| && f.nodes[p].Inner? && i <= |f.nodes[p].keys|
    ensures Walked(f, p, i, i, min, max, [], [])
  {
    NothingBetween(f, ld, f.marks[p].level - 1, Edge(f.marks[p], f.nodes[p].keys, i), min, max);
  }

  /** One more child of `p` walked. */
  lemma WalkExtends(f: Forest, ld: Loads, p: nat, i: nat, k: nat, min: Key, max: Key,
                    pages: seq<nat>, morePages: seq<nat>, cells: seq<Cell>, moreCells: seq<Cell>)
    requires Inv(f, Settled, ld) && p < |f.nodes| && f.nodes[p].Inner? && i <= k <= |f.nodes[p].keys|
    requires Walked(f, p, i, k, min, max, pages, cells) && Walked(f, p, k, k + 1, min, max, morePages, moreCells)
    ensures Walked(f, p, i, k + 1, min, max, pages + morePages, cells + moreCells)
  {
    var m, keys := f.marks[p], f.nodes[p].keys;
    EdgesGrow(f, ld, p, i, k);
    EdgesGrow(f, ld, p, k, k + 1);
    CellsExtend(f, Edge(m, keys, i), Edge(m, keys, k), Edge(m, keys, k + 1), min, max, cells, moreCells);
    PagesExtend(f, ld, p, i, k, min, max, pages, morePages);
  }

  /** Pages and cells found in children `i` to `k - 1` of `p`. */
  ghost predicate Walked(f: Forest, p: nat, i: nat, k: nat, min: Key, max: Key, pages: seq<nat>, cells: seq<Cell>)
    requires p < |f.nodes| == |f.marks| && f.nodes[p].Inner?
  {
    var m, keys := f.marks[p], f.nodes[p].keys;
    && i <= |keys| + 1 && k <= |keys| + 1
    && CellsBetween(f, Edge(m, keys, i), Edge(m, keys, k), min, max, cells)
    && PagesBetween(f, m.level - 1, Edge(m, keys, i), Edge(m, keys, k), min, max, pages)
  }

  lemma WalkDone(f: Forest, ld: Loads, p: nat, i: nat, e: nat, min: Key, max: Key, pages: seq<nat>, cells: seq<Cell>)
    requires Inv(f, Settled, ld) && p < |f.nodes| && f.nodes[p].Inner? && Meets(f.marks[p], min, max)
    requires Window(f.nodes[p].keys, min, max, i, e) && Walked(f, p, i, e, min, max, pages, cells)
    ensures CellsBetween(f, f.marks[p].lo, f.marks[p].hi, min, max, cells)
    ensures PagesBetween(f, f.marks[p].level, f.marks[p].lo, f.marks[p].hi, min, max, pages + [p])
  {
    assert PageOk(f, Settled, ld, p);
    WindowCells(f, f.marks[p], f.nodes[p].keys, min, max, i, e, cells);
    WindowPages(f, ld, p, min, max, i, e, pages);
  }
}
