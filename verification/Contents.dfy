/** Which cells a forest stores, and why a key can only be stored in one leaf. */
module Contents {
  import opened PageModel
  import opened Forest

  ghost predicate HasCell(nodes: seq<Node>, p: nat, c: Cell) {
    p < |nodes| && nodes[p].Leaf? && c in nodes[p].cells
  }

  ghost predicate Stored(nodes: seq<Node>, c: Cell) {
    exists p: nat :: HasCell(nodes, p, c)
  }

  /** The stored cells are exactly the entries of the map `rows`. */
  ghost predicate Holds(nodes: seq<Node>, rows: map<Key, Row>) {
    forall c: Cell :: Stored(nodes, c) <==> c.key in rows && rows[c.key] == c.row
  }

  ghost predicate Owns(f: Forest, p: nat, k: int)
    requires p < |f.marks|
  {
    f.marks[p].lo < k <= f.marks[p].hi
  }

  /** A child's interval lies inside its parent's, one level up. */
  lemma ParentOwns(f: Forest, ld: Loads, p: nat)
    requires Inv(f, Settled, ld) && p < |f.nodes| && p != f.root
    ensures var q := f.nodes[p].parent;
            && q < |f.nodes| && f.nodes[q].Inner? && p in f.nodes[q].kids && f.marks[q].level == f.marks[p].level + 1
            && f.marks[q].lo <= f.marks[p].lo && f.marks[p].hi <= f.marks[q].hi
  {
    assert Linked(f, p);
    var q := f.nodes[p].parent;
    assert PageOk(f, Settled, ld, q);
    var i :| 0 <= i < |f.nodes[q].kids| && f.nodes[q].kids[i] == p;
    assert KidOk(f.marks[q], f.nodes[q].keys, f.nodes[q].kids, f.marks, i);
  }

  /** Two children of one node do not own a common key. */
  lemma SiblingsApart(f: Forest, ld: Loads, q: nat, p: nat, p': nat, k: int)
    requires Inv(f, Settled, ld) && q < |f.nodes| && f.nodes[q].Inner? && p in f.nodes[q].kids && p' in f.nodes[q].kids
    requires p < |f.nodes| && p' < |f.nodes| && Owns(f, p, k) && Owns(f, p', k)
    ensures p == p'
  {
    assert PageOk(f, Settled, ld, q);
    var m, keys, kids := f.marks[q], f.nodes[q].keys, f.nodes[q].kids;
    var i :| 0 <= i < |kids| && kids[i] == p;
    var j :| 0 <= j < |kids| && kids[j] == p';
    assert KidOk(m, keys, kids, f.marks, i) && KidOk(m, keys, kids, f.marks, j);
  }

  /** On each level at most one page owns a given key. */
  lemma {:induction false} UniqueOwner(f: Forest, ld: Loads, p: nat, q: nat, k: int)
    requires Inv(f, Settled, ld) && p < |f.nodes| && q < |f.nodes|
    requires f.marks[p].level == f.marks[q].level && Owns(f, p, k) && Owns(f, q, k)
    ensures p == q
    decreases f.marks[f.root].level - f.marks[p].level
  {
    assert PageOk(f, Settled, ld, p) && PageOk(f, Settled, ld, q);
    if p != f.root && q != f.root {
      ParentOwns(f, ld, p);
      ParentOwns(f, ld, q);
      assert PageOk(f, Settled, ld, f.nodes[p].parent);
      UniqueOwner(f, ld, f.nodes[p].parent, f.nodes[q].parent, k);
      SiblingsApart(f, ld, f.nodes[p].parent, p, q, k);
    }
  }

  /** A leaf that owns a key holds its cell if any page does. */
  lemma OwnerHolds(f: Forest, ld: Loads, p: nat, c: Cell)
    requires Inv(f, Settled, ld) && p < |f.nodes| && f.nodes[p].Leaf? && Owns(f, p, c.key)
    ensures Stored(f.nodes, c) <==> c in f.nodes[p].cells
  {
    assert PageOk(f, Settled, ld, p);
    if Stored(f.nodes, c) {
      var q: nat :| HasCell(f.nodes, q, c);
      assert PageOk(f, Settled, ld, q);
      UniqueOwner(f, ld, p, q, c.key);
    } else {
      assert !HasCell(f.nodes, p, c);
    }
  }

  lemma CellsWithMembers(cells: seq<Cell>, key: Key, row: Row)
    ensures forall c: Cell :: c in CellsWith(cells, key, row) <==> c in cells || c == Cell(key, row)
  {
    var t := CellsWith(cells, key, row);
    var p := CellsWithInserts(cells, key, row);
    forall c: Cell | c in cells ensures c in t {
      var i :| 0 <= i < |cells| && cells[i] == c;
      assert t[if i < p then i else i + 1] == c;
    }
    forall c: Cell | c in t ensures c in cells || c == Cell(key, row) {
      var i :| 0 <= i < |t| && t[i] == c;
      assert i == p || t[i] == cells[if i < p then i else i - 1];
    }
  }

  /** Rewriting one leaf so that its cells, with those of an optional new leaf, gain one cell. */
  lemma StoredGains(nodes: seq<Node>, nodes': seq<Node>, p: nat, c0: Cell)
    requires p < |nodes| <= |nodes'| && nodes[p].Leaf? && nodes'[p].Leaf?
    requires forall q :: 0 <= q < |nodes| && q != p ==> nodes'[q] == nodes[q]
    requires forall c: Cell :: c in nodes[p].cells || c == c0 <==>
               HasCell(nodes', p, c) || exists q: nat :: |nodes| <= q < |nodes'| && HasCell(nodes', q, c)
    ensures forall c: Cell :: Stored(nodes', c) <==> Stored(nodes, c) || c == c0
  {
    forall c: Cell ensures Stored(nodes', c) <==> Stored(nodes, c) || c == c0 {
      if Stored(nodes, c) {
        var q: nat :| HasCell(nodes, q, c);
        assert q != p ==> HasCell(nodes', q, c);
        assert q == p ==> c in nodes[p].cells;
      }
      if c in nodes[p].cells || c == c0 {
        assert HasCell(nodes', p, c) || exists q: nat :: |nodes| <= q < |nodes'| && HasCell(nodes', q, c);
        assert Stored(nodes', c);
      }
      if Stored(nodes', c) {
        var q: nat :| HasCell(nodes', q, c);
        assert q != p && q < |nodes| ==> HasCell(nodes, q, c);
        assert c in nodes[p].cells ==> HasCell(nodes, p, c);
      }
    }
  }

  lemma LeafInsertHolds(f: Forest, p: nat, key: Key, row: Row, rows: map<Key, Row>)
    requires p < |f.nodes| && f.nodes[p].Leaf? && Holds(f.nodes, rows) && key !in rows
    ensures Holds(AfterLeafInsert(f, p, key, row).nodes, rows[key := row])
  {
    CellsWithMembers(f.nodes[p].cells, key, row);
    StoredGains(f.nodes, AfterLeafInsert(f, p, key, row).nodes, p, Cell(key, row));
  }

  lemma LeafSplitHolds(f: Forest, p: nat, key: Key, row: Row, flag: bool, junk: nat, rows: map<Key, Row>)
    requires p < |f.nodes| == |f.marks| && f.nodes[p].Leaf? && Holds(f.nodes, rows) && key !in rows
    ensures Holds(AfterLeafSplit(f, p, key, row, flag, junk).nodes, rows[key := row])
  {
    var f', h := AfterLeafSplit(f, p, key, row, flag, junk), |f.nodes[p].cells| / 2;
    var t := CellsWith(f.nodes[p].cells, key, row);
    CellsWithMembers(f.nodes[p].cells, key, row);
    assert t == t[..h + 1] + t[h + 1..];
    assert forall c: Cell :: c in t <==> HasCell(f'.nodes, p, c) || HasCell(f'.nodes, |f.nodes|, c);
    StoredGains(f.nodes, f'.nodes, p, Cell(key, row));
  }

  /** Steps that only touch inner pages and headers leave the stored cells alone. */
  lemma SameCellsHold(nodes: seq<Node>, nodes': seq<Node>, rows: map<Key, Row>)
    requires Holds(nodes, rows) && |nodes| <= |nodes'|
    requires forall q :: 0 <= q < |nodes| ==>
               nodes[q].Leaf? == nodes'[q].Leaf? && (nodes[q].Leaf? ==> nodes[q].cells == nodes'[q].cells)
    requires forall q :: |nodes| <= q < |nodes'| ==> nodes'[q].Inner?
    ensures Holds(nodes', rows)
  {
    forall c: Cell ensures Stored(nodes', c) <==> Stored(nodes, c) {
      if Stored(nodes, c) {
        var q: nat :| HasCell(nodes, q, c);
        assert HasCell(nodes', q, c);
      }
      if Stored(nodes', c) {
        var q: nat :| HasCell(nodes', q, c);
        assert HasCell(nodes, q, c);
      }
    }
  }

  /** The child picked by the search owns the key. */
  lemma DescentStep(f: Forest, ld: Loads, p: nat, key: Key, slot: int)
    requires Inv(f, Settled, ld) && p < |f.nodes| && f.nodes[p].Inner? && Owns(f, p, key)
    requires var keys := f.nodes[p].keys;
             var pos := Slot(keys, key) - 1;
             slot == if pos >= 0 && keys[pos] == key then pos else pos + 1
    ensures 0 <= slot < |f.nodes[p].kids| && f.nodes[p].kids[slot] < |f.nodes|
    ensures Owns(f, f.nodes[p].kids[slot], key) && f.marks[f.nodes[p].kids[slot]].level < f.marks[p].level
    ensures f.nodes[p].kids[slot] != f.root
  {
    assert PageOk(f, Settled, ld, p);
    var m, keys, kids := f.marks[p], f.nodes[p].keys, f.nodes[p].kids;
    SlotSplits(keys, key);
    assert KidOk(m, keys, kids, f.marks, slot);
    assert ParentIs(f, kids[slot], p);
  }
}
