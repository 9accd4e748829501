/** What is true of the pages, the marks and the rows of a tree together, and how each step of an insert keeps it. */
module TreeState {
  import opened PageModel
  import opened Forest
  import opened Contents
  import opened Growth
  import opened Tally
  import opened Protocol

  /** What stays fixed over the life of a tree. */
  datatype Terms = Terms(ld: Loads, rowSize: nat, zeroed: bool)

  /** The root byte is set on the root, and nowhere else if fresh memory comes zeroed. */
  ghost predicate FlagsOk(nodes: seq<Node>, root: nat, zeroed: bool) {
    && root < |nodes| && nodes[root].isRoot
    && (zeroed ==> forall p :: 0 <= p < |nodes| && p != root ==> !nodes[p].isRoot)
  }

  /** The pages hold exactly the rows, and the counts and root bytes agree with that. */
  ghost predicate Booked(f: Forest, pd: Pending, rows: map<Key, Row>, terms: Terms) {
    && Holds(f.nodes, rows)
    && Tallied(f.nodes, pd, |rows|)
    && FlagsOk(f.nodes, f.root, terms.zeroed)
    && (forall k :: k in rows ==> |rows[k]| == terms.rowSize)
  }

  /** The forest is a search tree, a run of inserts leads to it, and it holds the rows. */
  ghost predicate Standing(f: Forest, pd: Pending, rows: map<Key, Row>, terms: Terms) {
    Inv(f, pd, terms.ld) && Reached(terms.ld, Stage(f, pd)) && Booked(f, pd, rows, terms)
  }

  lemma EmptyStands(terms: Terms)
    requires GoodLoads(terms.ld)
    ensures Standing(EMPTY_TREE, Settled, map[], terms)
  {
    EmptyTree(terms.ld);
    EmptyReached(terms.ld);
    var nodes: seq<Node> := [];
    CountAppend(nodes, EMPTY_TREE.nodes[0]);
    assert EMPTY_TREE.nodes == nodes + [EMPTY_TREE.nodes[0]];
    assert forall c: Cell, p: nat :: !HasCell(EMPTY_TREE.nodes, p, c);
  }

  lemma AbsentFromLeaf(f: Forest, rows: map<Key, Row>, p: nat, key: Key)
    requires Holds(f.nodes, rows) && p < |f.nodes| && f.nodes[p].Leaf? && key !in rows
    ensures forall i :: 0 <= i < |f.nodes[p].cells| ==> f.nodes[p].cells[i].key != key
  {
    forall i | 0 <= i < |f.nodes[p].cells| ensures f.nodes[p].cells[i].key != key {
      assert HasCell(f.nodes, p, f.nodes[p].cells[i]);
      assert Stored(f.nodes, f.nodes[p].cells[i]);
    }
  }

  /** A leaf with room takes the cell. */
  lemma PutStands(f: Forest, rows: map<Key, Row>, terms: Terms, p: nat, key: Key, row: Row)
    requires Standing(f, Settled, rows, terms) && p < |f.nodes| && f.nodes[p].Leaf? && Owns(f, p, key)
    requires key !in rows && |row| == terms.rowSize && |f.nodes[p].cells| < terms.ld.leaf
    ensures Standing(AfterLeafInsert(f, p, key, row), Settled, rows[key := row], terms)
  {
    AbsentFromLeaf(f, rows, p, key);
    LeafInsertKeepsInv(f, terms.ld, p, key, row);
    LeafInsertHolds(f, p, key, row, rows);
    LeafInsertTallied(f, p, key, row, |rows|);
    NextReached(terms.ld, Stage(f, Settled), PutCell(p, key, row), Stage(AfterLeafInsert(f, p, key, row), Settled));
  }

  lemma CutBooked(f: Forest, rows: map<Key, Row>, terms: Terms, p: nat, key: Key, row: Row, flag: bool, junk: nat)
    requires |f.marks| == |f.nodes| && Booked(f, Settled, rows, terms) && p < |f.nodes| && f.nodes[p].Leaf?
    requires key !in rows && |row| == terms.rowSize && (terms.zeroed ==> !flag)
    ensures Booked(AfterLeafSplit(f, p, key, row, flag, junk), Split(p, |f.nodes|), rows[key := row], terms)
  {
    LeafSplitHolds(f, p, key, row, flag, junk, rows);
    LeafSplitTallied(f, p, key, row, flag, junk, |rows|);
  }

  lemma CutNext(f: Forest, ld: Loads, p: nat, key: Key, row: Row, flag: bool, junk: nat)
    requires Awaits(f, p, key) && |f.nodes[p].cells| == ld.leaf && |f.nodes| < TABLE_MAX_PAGES
    requires Reached(ld, Stage(f, Settled))
    ensures Reached(ld, Stage(AfterLeafSplit(f, p, key, row, flag, junk), Split(p, |f.nodes|)))
  {
    var s' := Stage(AfterLeafSplit(f, p, key, row, flag, junk), Split(p, |f.nodes|));
    NextReached(ld, Stage(f, Settled), CutLeaf(p, key, row, flag, junk), s');
  }

  /** A full leaf is split around the cell. */
  lemma CutStands(f: Forest, rows: map<Key, Row>, terms: Terms, p: nat, key: Key, row: Row, flag: bool, junk: nat)
    requires Standing(f, Settled, rows, terms) && GoodLoads(terms.ld) && |f.nodes| < TABLE_MAX_PAGES
    requires p < |f.nodes| && f.nodes[p].Leaf? && Owns(f, p, key)
    requires key !in rows && |row| == terms.rowSize && |f.nodes[p].cells| == terms.ld.leaf && (terms.zeroed ==> !flag)
    ensures Standing(AfterLeafSplit(f, p, key, row, flag, junk), Split(p, |f.nodes|), rows[key := row], terms)
  {
    AbsentFromLeaf(f, rows, p, key);
    LeafSplitKeepsInv(f, terms.ld, p, key, row, flag, junk);
    CutBooked(f, rows, terms, p, key, row, flag, junk);
    CutNext(f, terms.ld, p, key, row, flag, junk);
  }

  /** The stage after a leaf was cut, as the climb needs it. */
  ghost predicate IsCutLeaf(f: Forest, f': Forest, p: nat, keyUp: Key) {
    && |f'.nodes| == |f'.marks| == |f.nodes| + 1 && p < |f.nodes| && f'.root == f.root
    && f'.nodes[p].parent == f.nodes[p].parent && f'.marks[p].hi == keyUp
    && (forall x :: 0 <= x < |f.nodes| && x != p ==> f'.nodes[x] == f.nodes[x])
  }

  lemma CutResult(f: Forest, f': Forest, rows: map<Key, Row>, terms: Terms, p: nat, key: Key, row: Row, flag: bool,
                  junk: nat, keyUp: Key)
    requires Standing(f, Settled, rows, terms) && GoodLoads(terms.ld) && |f.nodes| < TABLE_MAX_PAGES
    requires p < |f.nodes| && f.nodes[p].Leaf? && Owns(f, p, key)
    requires key !in rows && |row| == terms.rowSize && |f.nodes[p].cells| == terms.ld.leaf && (terms.zeroed ==> !flag)
    requires f' == AfterLeafSplit(f, p, key, row, flag, junk)
    requires keyUp == CellsWith(f.nodes[p].cells, key, row)[terms.ld.leaf / 2].key
    ensures Standing(f', Split(p, |f.nodes|), rows[key := row], terms)
    ensures IsCutLeaf(f, f', p, keyUp) && AtSplit(f', Split(p, |f.nodes|), p)
    ensures ClimbNeed(f', Split(p, |f.nodes|), terms.ld, p) == ClimbNeed(f, Settled, terms.ld, p)
  {
    CutStands(f, rows, terms, p, key, row, flag, junk);
    LeafSplitNeed(f, terms.ld, p, key, row, flag, junk);
  }

  lemma TakeBooked(f: Forest, rows: map<Key, Row>, terms: Terms, l: nat, r: nat, key: Key)
    requires r < |f.nodes| && HasParent(f, l) && r != f.nodes[l].parent && Booked(f, Split(l, r), rows, terms)
    ensures Booked(AfterInnerInsert(f, l, r, key), Settled, rows, terms)
  {
    InnerInsertTallied(f, l, r, key, |rows|);
    SameCellsHold(f.nodes, AfterInnerInsert(f, l, r, key).nodes, rows);
  }

  /** The parent takes the pending entry. */
  lemma TakeStands(f: Forest, rows: map<Key, Row>, terms: Terms, l: nat, r: nat, key: Key)
    requires Standing(f, Split(l, r), rows, terms) && l != f.root && key == f.marks[l].hi
    requires HasParent(f, l) && |f.nodes[f.nodes[l].parent].keys| < terms.ld.inner
    ensures Standing(AfterInnerInsert(f, l, r, key), Settled, rows, terms)
    ensures SameContent(f.nodes[r], AfterInnerInsert(f, l, r, key).nodes[r])
  {
    var f' := AfterInnerInsert(f, l, r, key);
    PendingParent(f, l, r, terms.ld);
    InnerInsertKeepsInv(f, terms.ld, l, r, key);
    TakeBooked(f, rows, terms, l, r, key);
    NextReached(terms.ld, Stage(f, Split(l, r)), TakeEntry, Stage(f', Settled));
  }

  /** Splitting an inner page moves no row and makes one page. */
  lemma PushBooked(f: Forest, f': Forest, rows: map<Key, Row>, terms: Terms, l: nat, r: nat, q: nat, key: Key)
    requires Booked(f, Split(l, r), rows, terms) && IsEntrySplit(f, f', q, r, key) && |f.nodes[q].keys| % 2 == 0
    requires terms.zeroed ==> !f'.nodes[|f.nodes|].isRoot
    ensures Booked(f', Split(q, |f.nodes|), rows, terms)
  {
    EntrySplitKinds(f, f', q, r, key);
    SameCellsHold(f.nodes, f'.nodes, rows);
    InnerSplitTallied(f, f', l, q, r, key, |rows|);
  }

  /** Pages keep their kind, their root byte and, if leaves, their cells. */
  lemma EntrySplitKinds(f: Forest, f': Forest, q: nat, r: nat, key: Key)
    requires IsEntrySplit(f, f', q, r, key)
    ensures |f'.nodes| == |f.nodes| + 1 && f'.nodes[|f.nodes|].Inner?
    ensures forall x :: 0 <= x < |f.nodes| ==>
              f.nodes[x].Leaf? == f'.nodes[x].Leaf? && f.nodes[x].isRoot == f'.nodes[x].isRoot
    ensures forall x :: 0 <= x < |f.nodes| && f.nodes[x].Leaf? ==> f.nodes[x].cells == f'.nodes[x].cells
  {
  }

  /** A full parent is split: the pending pair moves up a level and the climb needs one page less. */
  lemma PushStands(f: Forest, f': Forest, rows: map<Key, Row>, terms: Terms, l: nat, r: nat, q: nat, key: Key)
    requires Standing(f, Split(l, r), rows, terms) && GoodLoads(terms.ld) && |f.nodes| < TABLE_MAX_PAGES
    requires l != f.root && key == f.marks[l].hi && HasParent(f, l) && q == f.nodes[l].parent
    requires IsEntrySplit(f, f', q, r, key) && |f.nodes[q].keys| == terms.ld.inner
             && (terms.zeroed ==> !f'.nodes[|f.nodes|].isRoot)
    ensures Standing(f', Split(q, |f.nodes|), rows, terms)
    ensures 2 * |f'.nodes[|f.nodes|].keys| == terms.ld.inner
  {
    PendingParent(f, l, r, terms.ld);
    InnerSplitKeepsInv(f, f', terms.ld, l, r, q, key);
    PushBooked(f, f', rows, terms, l, r, q, key);
    NextReached(terms.ld, Stage(f, Split(l, r)), CutParent, Stage(f', Split(q, |f.nodes|)));
  }

  /** How far the climb has come after the split of a full parent. */
  lemma PushClimbs(f: Forest, f': Forest, ld: Loads, l: nat, r: nat, q: nat, key: Key, pivot: Key)
    requires Inv(f, Split(l, r), ld) && GoodLoads(ld) && |f.nodes| < TABLE_MAX_PAGES && l != f.root
             && key == f.marks[l].hi
    requires q == f.nodes[l].parent && IsEntrySplit(f, f', q, r, key) && |f.nodes[q].keys| == ld.inner
    requires f'.marks == SplitMarks(f.marks, q, pivot) && Inv(f', Split(q, |f.nodes|), ld)
    ensures AtSplit(f, Split(l, r), l) && AtSplit(f', Split(q, |f.nodes|), q) && f'.marks[q].hi == pivot
    ensures ClimbNeed(f', Split(q, |f.nodes|), ld, q) + 1 == ClimbNeed(f, Split(l, r), ld, l)
    ensures 0 <= f'.marks[f'.root].level - f'.marks[q].level < f.marks[f.root].level - f.marks[l].level
  {
    PendingParent(f, l, r, ld);
    InnerSplitNeed(f, f', ld, l, r, q, key);
    ParentLevel(f, Split(l, r), ld, l);
  }

  lemma PushResult(f: Forest, f': Forest, rows: map<Key, Row>, terms: Terms, l: nat, r: nat, q: nat, key: Key,
                   pivot: Key)
    requires Standing(f, Split(l, r), rows, terms) && GoodLoads(terms.ld) && |f.nodes| < TABLE_MAX_PAGES
    requires l != f.root && key == f.marks[l].hi && q == f.nodes[l].parent
    requires IsEntrySplit(f, f', q, r, key) && |f.nodes[q].keys| == terms.ld.inner
             && (terms.zeroed ==> !f'.nodes[|f.nodes|].isRoot)
    requires f'.marks == SplitMarks(f.marks, q, pivot)
    ensures Standing(f', Split(q, |f.nodes|), rows, terms) && f'.marks[q].hi == pivot
    ensures |f'.nodes| == |f.nodes| + 1 && f'.nodes[|f.nodes|].Inner?
            && 2 * |f'.nodes[|f.nodes|].keys| == terms.ld.inner
    ensures AtSplit(f, Split(l, r), l) && AtSplit(f', Split(q, |f.nodes|), q)
    ensures ClimbNeed(f', Split(q, |f.nodes|), terms.ld, q) + 1 == ClimbNeed(f, Split(l, r), terms.ld, l)
    ensures 0 <= f'.marks[f'.root].level - f'.marks[q].level < f.marks[f.root].level - f.marks[l].level
  {
    PushStands(f, f', rows, terms, l, r, q, key);
    PushClimbs(f, f', terms.ld, l, r, q, key, pivot);
  }

  lemma GrowBooked(f: Forest, rows: map<Key, Row>, terms: Terms, l: nat, r: nat, key: Key)
    requires l < |f.nodes| == |f.marks| && r < |f.nodes| && l != r && l == f.root && Booked(f, Split(l, r), rows, terms)
    ensures Booked(AfterNewRoot(f, l, r, key), Settled, rows, terms)
  {
    NewRootTallied(f, l, r, key, |rows|);
    SameCellsHold(f.nodes, AfterNewRoot(f, l, r, key).nodes, rows);
  }

  /** A new root takes the pending pair. */
  lemma GrowStands(f: Forest, rows: map<Key, Row>, terms: Terms, l: nat, r: nat, key: Key)
    requires Standing(f, Split(l, r), rows, terms) && GoodLoads(terms.ld) && |f.nodes| < TABLE_MAX_PAGES
    requires l == f.root && key == f.marks[l].hi
    ensures Standing(AfterNewRoot(f, l, r, key), Settled, rows, terms)
    ensures SameContent(f.nodes[r], AfterNewRoot(f, l, r, key).nodes[r])
  {
    var f' := AfterNewRoot(f, l, r, key);
    NewRootKeepsInv(f, terms.ld, l, r, key);
    GrowBooked(f, rows, terms, l, r, key);
    NextReached(terms.ld, Stage(f, Split(l, r)), GrowRoot, Stage(f', Settled));
  }
}
