/**
 * The page forest as a value: what is in every page, and a mark per page that records
 * its level and the interval of keys its subtree may hold. All facts are stated page by page.
 */
module Forest {
  import opened PageModel

  /** A page at `level` (leaves are at 0) whose subtree holds only keys in (lo, hi]. */
  datatype Mark = Mark(level: nat, lo: int, hi: int)

  /** While a split climbs, `right` hangs beside `left` but no parent refers to it yet. */
  datatype Pending = Settled | Split(left: nat, right: nat)

  /** Effective loads: most cells in a leaf, most separators in an inner node. */
  datatype Loads = Loads(leaf: nat, inner: nat)

  datatype Forest = Forest(nodes: seq<Node>, marks: seq<Mark>, root: nat)

  predicate GoodLoads(ld: Loads) {
    ld.leaf >= 2 && ld.leaf % 2 == 0 && ld.inner >= 2 && ld.inner % 2 == 0 && ld.inner <= INNER_CAPACITY
  }

  /** Child `k` owns (Edge(k), Edge(k + 1)]. */
  function Edge(m: Mark, keys: seq<Key>, k: nat): int
    requires k <= |keys| + 1
  {
    if k == 0 then m.lo else if k <= |keys| then keys[k - 1] else m.hi
  }

  /** The child at position `i` sits one level down and owns the interval between its separators. */
  ghost predicate KidOk(m: Mark, keys: seq<Key>, kids: seq<nat>, om: seq<Mark>, i: nat)
    requires i < |kids| == |keys| + 1
  {
    && kids[i] < |om| && om[kids[i]].level == m.level - 1
    && om[kids[i]].lo == Edge(m, keys, i) && om[kids[i]].hi == Edge(m, keys, i + 1)
  }

  ghost predicate InnerOk(m: Mark, keys: seq<Key>, kids: seq<nat>, om: seq<Mark>) {
    && m.level > 0 && |kids| == |keys| + 1
    && Sorted(keys)
    && (forall i :: 0 <= i < |keys| ==> m.lo < keys[i] < m.hi)
    && (forall i :: 0 <= i < |kids| ==> KidOk(m, keys, kids, om, i))
  }

  /** Left of the right edge of the tree the upper end of the interval is a stored key. */
  ghost predicate LeafOk(m: Mark, cells: seq<Cell>) {
    && m.level == 0
    && SortedCells(cells)
    && (forall i :: 0 <= i < |cells| ==> m.lo < cells[i].key <= m.hi)
    && (m.hi < UINT32_MAX ==> |cells| > 0 && cells[|cells| - 1].key == m.hi)
  }

  /** Half full and within the load; the root may hold less. */
  predicate LoadOk(n: Node, isTop: bool, ld: Loads) {
    match n
    case Leaf(_, _, cells) => |cells| <= ld.leaf && (isTop || ld.leaf / 2 <= |cells|)
    case Inner(_, _, keys, _) => 1 <= |keys| <= ld.inner && (isTop || ld.inner / 2 <= |keys|)
  }

  ghost predicate InBounds(f: Forest, pd: Pending) {
    && |f.marks| == |f.nodes| && f.root < |f.nodes| <= TABLE_MAX_PAGES
    && (pd.Split? ==>
          && pd.left < |f.nodes| && pd.right < |f.nodes| && pd.left != pd.right && pd.right != f.root
          && f.marks[pd.left].level == f.marks[pd.right].level
          && f.marks[pd.left].hi == f.marks[pd.right].lo)
  }

  /** The marks as the parents see them: a pending pair still counts as its left page. */
  ghost function Outer(f: Forest, pd: Pending): seq<Mark>
    requires InBounds(f, pd)
  {
    if pd.Split? then f.marks[pd.left := f.marks[pd.left].(hi := f.marks[pd.right].hi)] else f.marks
  }

  /** The root is exempt from the lower load bound unless it is the left half of a pending split. */
  predicate IsTop(f: Forest, pd: Pending, p: nat) {
    p == f.root && !(pd.Split? && pd.left == p)
  }

  predicate SameContent(n: Node, n': Node) {
    match n
    case Leaf(_, _, cells) => n'.Leaf? && n'.cells == cells
    case Inner(_, _, keys, kids) => n'.Inner? && n'.keys == keys && n'.kids == kids
  }

  ghost predicate ParentIs(f: Forest, c: nat, p: nat) {
    c < |f.nodes| && f.nodes[c].parent == p
  }

  ghost predicate PageOk(f: Forest, pd: Pending, ld: Loads, p: nat)
    requires InBounds(f, pd) && p < |f.nodes|
  {
    var n, m := f.nodes[p], f.marks[p];
    && -1 <= m.lo < m.hi <= UINT32_MAX
    && LoadOk(n, IsTop(f, pd, p), ld)
    && (p != f.root && pd != Split(f.root, p) ==> m.level < f.marks[f.root].level)
    && match n
       case Leaf(_, _, cells) => LeafOk(m, cells)
       case Inner(_, _, keys, kids) =>
         && InnerOk(m, keys, kids, Outer(f, pd))
         && (forall i :: 0 <= i < |kids| ==> ParentIs(f, kids[i], p))
  }

  /** The parent field names an inner page that has `p` among its children. */
  ghost predicate Linked(f: Forest, p: nat)
    requires p < |f.nodes|
  {
    var q := f.nodes[p].parent;
    q < |f.nodes| && f.nodes[q].Inner? && p in f.nodes[q].kids
  }

  ghost predicate NotKid(f: Forest, q: nat, c: nat)
    requires q < |f.nodes|
  {
    f.nodes[q].Inner? ==> c !in f.nodes[q].kids
  }

  ghost predicate RootOk(f: Forest, pd: Pending)
    requires InBounds(f, pd)
  {
    && f.nodes[f.root].parent == NODE_PARENT_INVALID
    && Outer(f, pd)[f.root].lo == -1 && Outer(f, pd)[f.root].hi == UINT32_MAX
  }

  ghost predicate Inv(f: Forest, pd: Pending, ld: Loads) {
    && InBounds(f, pd)
    && (forall p :: 0 <= p < |f.nodes| ==> PageOk(f, pd, ld, p))
    && (forall p :: 0 <= p < |f.nodes| && p != f.root && !(pd.Split? && p == pd.right) ==> Linked(f, p))
    && (pd.Split? ==> forall q :: 0 <= q < |f.nodes| ==> NotKid(f, q, pd.right))
    && RootOk(f, pd)
  }

  ghost predicate SameChild(f: Forest, pd: Pending, f': Forest, pd': Pending, c: nat)
    requires InBounds(f, pd) && InBounds(f', pd') && |f.nodes| <= |f'.nodes|
  {
    c < |f.nodes| ==> Outer(f', pd')[c] == Outer(f, pd)[c] && f'.nodes[c].parent == f.nodes[c].parent
  }

  /** A page is still in order when neither it nor anything it says about its children changed. */
  lemma PageFrame(f: Forest, pd: Pending, f': Forest, pd': Pending, ld: Loads, q: nat)
    requires InBounds(f, pd) && InBounds(f', pd') && q < |f.nodes| <= |f'.nodes|
    requires PageOk(f, pd, ld, q)
    requires SameContent(f.nodes[q], f'.nodes[q]) && f'.marks[q] == f.marks[q]
    requires IsTop(f, pd, q) ==> IsTop(f', pd', q)
    requires q != f'.root && pd' != Split(f'.root, q) ==> f.marks[q].level < f'.marks[f'.root].level
    requires f.nodes[q].Inner? ==> forall i :: 0 <= i < |f.nodes[q].kids| ==>
               SameChild(f, pd, f', pd', f.nodes[q].kids[i])
    ensures PageOk(f', pd', ld, q)
  {
    if f.nodes[q].Inner? {
      var m, keys, kids := f.marks[q], f.nodes[q].keys, f.nodes[q].kids;
      forall i | 0 <= i < |kids| ensures KidOk(m, keys, kids, Outer(f', pd'), i) && ParentIs(f', kids[i], q) {
        assert KidOk(m, keys, kids, Outer(f, pd), i) && ParentIs(f, kids[i], q) && SameChild(f, pd, f', pd', kids[i]);
      }
    }
  }

  /** Different positions of one node hold different pages. */
  lemma KidsDistinct(m: Mark, keys: seq<Key>, kids: seq<nat>, om: seq<Mark>)
    requires InnerOk(m, keys, kids, om)
    ensures forall i, j :: 0 <= i < j < |kids| ==> kids[i] != kids[j]
  {
    forall i, j | 0 <= i < j < |kids| ensures kids[i] != kids[j] {
      assert KidOk(m, keys, kids, om, i) && KidOk(m, keys, kids, om, j);
    }
  }

  /** A new cell goes into a leaf with room. */
  function AfterLeafInsert(f: Forest, p: nat, key: Key, row: Row): Forest
    requires p < |f.nodes| && f.nodes[p].Leaf?
  {
    f.(nodes := f.nodes[p := f.nodes[p].(cells := CellsWith(f.nodes[p].cells, key, row))])
  }

  lemma LeafOkWith(m: Mark, cells: seq<Cell>, key: Key, row: Row)
    requires LeafOk(m, cells) && m.lo < key <= m.hi
    requires forall i :: 0 <= i < |cells| ==> cells[i].key != key
    ensures LeafOk(m, CellsWith(cells, key, row))
  {
    var p := CellsWithInserts(cells, key, row);
    LeafOkInsertion(m, cells, key, row, p, CellsWith(cells, key, row));
  }

  lemma LeafOkInsertion(m: Mark, cells: seq<Cell>, key: Key, row: Row, p: nat, t: seq<Cell>)
    requires LeafOk(m, cells) && m.lo < key <= m.hi
    requires forall i :: 0 <= i < |cells| ==> cells[i].key != key
    requires IsCellSlot(cells, key, p) && IsInsertion(cells, p, Cell(key, row), t)
    ensures LeafOk(m, t)
  {
    assert forall i :: 0 <= i < p ==> cells[i].key < key;
    forall i, j | 0 <= i < j < |t| ensures t[i].key < t[j].key {
      assert j > p ==> t[j] == cells[j - 1];
      assert i > p ==> t[i] == cells[i - 1];
    }
    forall i | 0 <= i < |t| ensures m.lo < t[i].key <= m.hi {
      assert i > p ==> t[i] == cells[i - 1];
    }
  }

  lemma LeafInsertKeepsInv(f: Forest, ld: Loads, p: nat, key: Key, row: Row)
    requires Inv(f, Settled, ld) && p < |f.nodes| && f.nodes[p].Leaf?
    requires |f.nodes[p].cells| < ld.leaf && f.marks[p].lo < key <= f.marks[p].hi
    requires forall i :: 0 <= i < |f.nodes[p].cells| ==> f.nodes[p].cells[i].key != key
    ensures Inv(AfterLeafInsert(f, p, key, row), Settled, ld)
  {
    var f' := AfterLeafInsert(f, p, key, row);
    assert PageOk(f, Settled, ld, p);
    LeafOkWith(f.marks[p], f.nodes[p].cells, key, row);
    assert PageOk(f', Settled, ld, p);
    forall q | 0 <= q < |f.nodes| && q != p ensures PageOk(f', Settled, ld, q) {
      assert PageOk(f, Settled, ld, q);
      PageFrame(f, Settled, f', Settled, ld, q);
    }
    forall q | 0 <= q < |f.nodes| && q != f.root ensures Linked(f', q) {
      assert Linked(f, q);
    }
  }

  /** A full leaf is split around a new cell; the new page is not linked yet. */
  function AfterLeafSplit(f: Forest, p: nat, key: Key, row: Row, flag: bool, junk: nat): Forest
    requires p < |f.nodes| == |f.marks| && f.nodes[p].Leaf?
  {
    var n, m := f.nodes[p], f.marks[p];
    var t, h := CellsWith(n.cells, key, row), |n.cells| / 2;
    f.(nodes := f.nodes[p := Leaf(n.isRoot, n.parent, t[..h + 1])] + [Leaf(flag, junk, t[h + 1..])],
       marks := f.marks[p := Mark(0, m.lo, t[h].key)] + [Mark(0, t[h].key, m.hi)])
  }

  lemma LeafHalvesOk(m: Mark, t: seq<Cell>, h: nat)
    requires LeafOk(m, t) && 1 <= h + 1 < |t|
    ensures LeafOk(Mark(0, m.lo, t[h].key), t[..h + 1])
    ensures LeafOk(Mark(0, t[h].key, m.hi), t[h + 1..])
    ensures m.lo < t[h].key < m.hi
  {
    assert t[h].key < t[h + 1].key;
  }

  lemma LeafSplitPagesOk(f: Forest, ld: Loads, p: nat, key: Key, row: Row, flag: bool, junk: nat)
    requires Inv(f, Settled, ld) && GoodLoads(ld) && |f.nodes| < TABLE_MAX_PAGES && p < |f.nodes| && f.nodes[p].Leaf?
    requires |f.nodes[p].cells| == ld.leaf && f.marks[p].lo < key <= f.marks[p].hi
    requires forall i :: 0 <= i < |f.nodes[p].cells| ==> f.nodes[p].cells[i].key != key
    ensures var f', pd' := AfterLeafSplit(f, p, key, row, flag, junk), Split(p, |f.nodes|);
            && InBounds(f', pd') && RootOk(f', pd')
            && PageOk(f', pd', ld, p) && PageOk(f', pd', ld, |f.nodes|)
            && (forall q :: 0 <= q < |f.nodes| ==> Outer(f', pd')[q] == f.marks[q])
  {
    assert PageOk(f, Settled, ld, p);
    LeafOkWith(f.marks[p], f.nodes[p].cells, key, row);
    LeafHalvesInPlace(f, AfterLeafSplit(f, p, key, row, flag, junk), ld, p, CellsWith(f.nodes[p].cells, key, row),
      ld.leaf / 2);
  }

  lemma LeafHalvesInPlace(f: Forest, f': Forest, ld: Loads, p: nat, t: seq<Cell>, h: nat)
    requires Inv(f, Settled, ld) && |f.nodes| < TABLE_MAX_PAGES && p < |f.nodes| && f.nodes[p].Leaf?
    requires LeafOk(f.marks[p], t) && |t| == ld.leaf + 1 && ld.leaf == 2 * h && h >= 1
    requires |f'.nodes| == |f.nodes| + 1 && f'.root == f.root && f'.nodes[|f.nodes|].Leaf?
             && f'.nodes[|f.nodes|].cells == t[h + 1..]
    requires f'.nodes[p] == Leaf(f.nodes[p].isRoot, f.nodes[p].parent, t[..h + 1])
    requires forall x :: 0 <= x < |f.nodes| && x != p ==> f'.nodes[x] == f.nodes[x]
    requires f'.marks == f.marks[p := Mark(0, f.marks[p].lo, t[h].key)] + [Mark(0, t[h].key, f.marks[p].hi)]
    ensures var pd' := Split(p, |f.nodes|);
            && InBounds(f', pd') && RootOk(f', pd')
            && PageOk(f', pd', ld, p) && PageOk(f', pd', ld, |f.nodes|)
            && (forall q :: 0 <= q < |f.nodes| ==> Outer(f', pd')[q] == f.marks[q])
  {
    assert PageOk(f, Settled, ld, p);
    LeafHalvesOk(f.marks[p], t, h);
  }

  lemma LeafSplitKeepsInv(f: Forest, ld: Loads, p: nat, key: Key, row: Row, flag: bool, junk: nat)
    requires Inv(f, Settled, ld) && GoodLoads(ld) && |f.nodes| < TABLE_MAX_PAGES && p < |f.nodes| && f.nodes[p].Leaf?
    requires |f.nodes[p].cells| == ld.leaf && f.marks[p].lo < key <= f.marks[p].hi
    requires forall i :: 0 <= i < |f.nodes[p].cells| ==> f.nodes[p].cells[i].key != key
    ensures Inv(AfterLeafSplit(f, p, key, row, flag, junk), Split(p, |f.nodes|), ld)
  {
    LeafSplitPagesOk(f, ld, p, key, row, flag, junk);
    LeafSplitFrame(f, AfterLeafSplit(f, p, key, row, flag, junk), ld, p);
  }

  lemma LeafSplitFrame(f: Forest, f': Forest, ld: Loads, p: nat)
    requires Inv(f, Settled, ld) && p < |f.nodes| && |f'.nodes| == |f.nodes| + 1 && f'.root == f.root
    requires f.nodes[p].Leaf? && f'.nodes[p].Leaf? && f'.nodes[p].parent == f.nodes[p].parent
             && f'.nodes[|f.nodes|].Leaf?
    requires forall q :: 0 <= q < |f.nodes| && q != p ==> f'.nodes[q] == f.nodes[q]
    requires InBounds(f', Split(p, |f.nodes|)) && RootOk(f', Split(p, |f.nodes|))
    requires PageOk(f', Split(p, |f.nodes|), ld, p) && PageOk(f', Split(p, |f.nodes|), ld, |f.nodes|)
    requires forall q :: 0 <= q < |f.nodes| ==> Outer(f', Split(p, |f.nodes|))[q] == f.marks[q]
    ensures Inv(f', Split(p, |f.nodes|), ld)
  {
    var pd' := Split(p, |f.nodes|);
    forall q | 0 <= q < |f.nodes| && q != p ensures PageOk(f', pd', ld, q) {
      assert PageOk(f, Settled, ld, q);
      assert f'.marks[q] == Outer(f', pd')[q];
      PageFrame(f, Settled, f', pd', ld, q);
    }
    forall q | 0 <= q < |f.nodes| && q != f.root ensures Linked(f', q) {
      assert Linked(f, q);
    }
    forall q | 0 <= q < |f'.nodes| ensures NotKid(f', q, |f.nodes|) {
      if q < |f.nodes| {
        KidsInRange(f, Settled, ld, q);
      }
    }
  }

  lemma KidsInRange(f: Forest, pd: Pending, ld: Loads, q: nat)
    requires Inv(f, pd, ld) && q < |f.nodes|
    ensures f.nodes[q].Inner? ==> forall i :: 0 <= i < |f.nodes[q].kids| ==> f.nodes[q].kids[i] < |f.nodes|
  {
    assert PageOk(f, pd, ld, q);
    if f.nodes[q].Inner? {
      forall i | 0 <= i < |f.nodes[q].kids| ensures f.nodes[q].kids[i] < |f.nodes| {
        assert ParentIs(f, f.nodes[q].kids[i], q);
      }
    }
  }

  /** The pending left page sits at the slot of the pending separator, which is not in its parent yet. */
  lemma PendingSlot(f: Forest, pd: Pending, ld: Loads)
    requires Inv(f, pd, ld) && pd.Split? && pd.left != f.root
    ensures var q := f.nodes[pd.left].parent;
            && q < |f.nodes| && f.nodes[q].Inner? && |f.nodes[q].kids| == |f.nodes[q].keys| + 1
            && 0 <= f.marks[pd.left].hi <= UINT32_MAX
            && f.marks[pd.left].hi !in f.nodes[q].keys
            && f.nodes[q].kids[Slot(f.nodes[q].keys, f.marks[pd.left].hi)] == pd.left
  {
    var q := f.nodes[pd.left].parent;
    assert Linked(f, pd.left) && PageOk(f, pd, ld, q);
    assert PageOk(f, pd, ld, pd.left) && PageOk(f, pd, ld, pd.right);
    var keys, kids, m, sep := f.nodes[q].keys, f.nodes[q].kids, f.marks[q], f.marks[pd.left].hi;
    var i :| 0 <= i < |kids| && kids[i] == pd.left;
    assert KidOk(m, keys, kids, Outer(f, pd), i);
    PendingSlotAt(f, pd, m, keys, kids, i);
  }

  lemma PendingSlotAt(f: Forest, pd: Pending, m: Mark, keys: seq<Key>, kids: seq<nat>, i: nat)
    requires InBounds(f, pd) && pd.Split? && InnerOk(m, keys, kids, Outer(f, pd))
    requires i < |kids| && kids[i] == pd.left && KidOk(m, keys, kids, Outer(f, pd), i)
    requires f.marks[pd.left].lo < f.marks[pd.left].hi < f.marks[pd.right].hi
    requires -1 <= m.lo && m.hi <= UINT32_MAX
    ensures 0 <= f.marks[pd.left].hi <= UINT32_MAX && f.marks[pd.left].hi !in keys
            && i == Slot(keys, f.marks[pd.left].hi)
  {
    var sep := f.marks[pd.left].hi;
    assert Edge(m, keys, i) < sep < Edge(m, keys, i + 1);
    assert forall j :: 0 <= j < i ==> keys[j] < sep;
    assert forall j :: i <= j < |keys| ==> sep < keys[j];
    SlotIs(keys, sep, i);
  }

  /** With the pending entry inserted the node is in order under the true marks, up to its load. */
  lemma InnerOkWith(m: Mark, keys: seq<Key>, kids: seq<nat>, marks: seq<Mark>, l: nat, r: nat)
    requires l < |marks| && r < |marks| && l != r && marks[l].level == marks[r].level
    requires 0 <= marks[l].hi <= UINT32_MAX && marks[l].lo < marks[l].hi == marks[r].lo < marks[r].hi
    requires InnerOk(m, keys, kids, marks[l := marks[l].(hi := marks[r].hi)])
    requires kids[Slot(keys, marks[l].hi)] == l && marks[l].hi !in keys
    ensures InnerOk(m, KeysWith(keys, marks[l].hi), KidsWith(keys, kids, marks[l].hi, r), marks)
  {
    var om, sep: Key := marks[l := marks[l].(hi := marks[r].hi)], marks[l].hi;
    var p := EntryInserts(keys, kids, sep, r);
    EntryInOrder(m, keys, kids, marks, l, r, p, KeysWith(keys, sep), KidsWith(keys, kids, sep, r));
  }

  lemma EntryInOrder(m: Mark, keys: seq<Key>, kids: seq<nat>, marks: seq<Mark>, l: nat, r: nat, p: nat, tk: seq<Key>,
                     tc: seq<nat>)
    requires l < |marks| && r < |marks| && l != r && marks[l].level == marks[r].level
    requires 0 <= marks[l].hi <= UINT32_MAX && marks[l].lo < marks[l].hi == marks[r].lo < marks[r].hi
    requires InnerOk(m, keys, kids, marks[l := marks[l].(hi := marks[r].hi)])
    requires p < |kids| && kids[p] == l
    requires IsInsertion(keys, p, marks[l].hi, tk) && IsInsertion(kids, p + 1, r, tc)
    ensures InnerOk(m, tk, tc, marks)
  {
    var om := marks[l := marks[l].(hi := marks[r].hi)];
    KidsDistinct(m, keys, kids, om);
    assert KidOk(m, keys, kids, om, p);
    assert forall j :: 0 <= j < |tk| ==>
             tk[j] == if j < p then keys[j] else if j == p then marks[l].hi else keys[j - 1];
    forall i | 0 <= i < |tc| ensures KidOk(m, tk, tc, marks, i) {
      if i <= p {
        assert KidOk(m, keys, kids, om, i);
      } else if i > p + 1 {
        assert KidOk(m, keys, kids, om, i - 1);
      }
    }
  }

  /** Cutting an in-order node at its separator `h` gives two in-order nodes. */
  lemma InnerHalvesOk(m: Mark, tk: seq<Key>, tc: seq<nat>, om: seq<Mark>, h: nat)
    requires InnerOk(m, tk, tc, om) && h < |tk|
    ensures InnerOk(m.(hi := tk[h]), tk[..h], tc[..h + 1], om)
    ensures InnerOk(m.(lo := tk[h]), tk[h + 1..], tc[h + 1..], om)
  {
    var a, ak, ac := m.(hi := tk[h]), tk[..h], tc[..h + 1];
    var b, bk, bc := m.(lo := tk[h]), tk[h + 1..], tc[h + 1..];
    forall i | 0 <= i < |ac| ensures KidOk(a, ak, ac, om, i) {
      assert KidOk(m, tk, tc, om, i);
    }
    forall i | 0 <= i < |bc| ensures KidOk(b, bk, bc, om, i) {
      assert KidOk(m, tk, tc, om, i + h + 1);
    }
  }

  /** The parent of the pending pair has room: the entry goes in and `right` is linked. */
  function AfterInnerInsert(f: Forest, l: nat, r: nat, sep: Key): Forest
    requires l < |f.nodes| && r < |f.nodes|
    requires f.nodes[l].parent < |f.nodes| && f.nodes[f.nodes[l].parent].Inner?
    requires |f.nodes[f.nodes[l].parent].kids| == |f.nodes[f.nodes[l].parent].keys| + 1
  {
    var q := f.nodes[l].parent;
    var n := f.nodes[q];
    f.(nodes := f.nodes[q := Inner(n.isRoot, n.parent, KeysWith(n.keys, sep), KidsWith(n.keys, n.kids, sep, r))]
                       [r := WithParent(f.nodes[r], q)])
  }

  /** What a pending split says about the page above it. */
  lemma PendingParent(f: Forest, l: nat, r: nat, ld: Loads)
    requires Inv(f, Split(l, r), ld) && l != f.root
    ensures var q, sep := f.nodes[l].parent, f.marks[l].hi;
            && q < |f.nodes| && q != l && q != r && f.nodes[q].Inner? && |f.nodes[q].kids| == |f.nodes[q].keys| + 1
            && 0 <= sep <= UINT32_MAX && sep !in f.nodes[q].keys && f.nodes[q].kids[Slot(f.nodes[q].keys, sep)] == l
            && InnerOk(f.marks[q], KeysWith(f.nodes[q].keys, sep), KidsWith(f.nodes[q].keys, f.nodes[q].kids, sep, r),
               f.marks)
            && f.marks[q].level == f.marks[l].level + 1
  {
    PendingSlot(f, Split(l, r), ld);
    var q := f.nodes[l].parent;
    var i := Slot(f.nodes[q].keys, f.marks[l].hi);
    assert PageOk(f, Split(l, r), ld, l) && PageOk(f, Split(l, r), ld, r) && PageOk(f, Split(l, r), ld, q);
    assert KidOk(f.marks[q], f.nodes[q].keys, f.nodes[q].kids, Outer(f, Split(l, r)), i);
    InnerOkWith(f.marks[q], f.nodes[q].keys, f.nodes[q].kids, f.marks, l, r);
  }

  /** The children after the insertion are the old ones and `right`. */
  lemma KidsWithMembers(keys: seq<Key>, kids: seq<nat>, sep: Key, r: nat)
    requires |kids| == |keys| + 1
    ensures forall c: nat :: c in KidsWith(keys, kids, sep, r) <==> c in kids || c == r
  {
    var tc := KidsWith(keys, kids, sep, r);
    var p := EntryInserts(keys, kids, sep, r);
    forall c: nat | c in kids ensures c in tc {
      var i :| 0 <= i < |kids| && kids[i] == c;
      assert tc[if i <= p then i else i + 1] == c;
    }
    assert tc[p + 1] == r;
    forall c: nat | c in tc ensures c in kids || c == r {
      var i :| 0 <= i < |tc| && tc[i] == c;
      assert i == p + 1 || tc[i] == kids[if i <= p then i else i - 1];
    }
  }

  /** Children of pages other than the one above the split keep their marks and parents. */
  lemma OtherKids(f: Forest, l: nat, r: nat, ld: Loads, x: nat, c: nat)
    requires Inv(f, Split(l, r), ld) && x < |f.nodes| && f.nodes[x].Inner? && c in f.nodes[x].kids
    requires l == f.root || x != f.nodes[l].parent
    ensures c < |f.nodes| && c != l && c != r && f.nodes[c].parent == x && Outer(f, Split(l, r))[c] == f.marks[c]
  {
    assert PageOk(f, Split(l, r), ld, x) && NotKid(f, x, r);
    var i :| 0 <= i < |f.nodes[x].kids| && f.nodes[x].kids[i] == c;
    assert ParentIs(f, f.nodes[x].kids[i], x);
  }

  /** Pages other than the one that receives the entry stay in order. */
  lemma OtherPageKept(f: Forest, f': Forest, ld: Loads, l: nat, r: nat, x: nat)
    requires Inv(f, Split(l, r), ld) && l != f.root && x < |f.nodes| && x != f.nodes[l].parent
    requires InBounds(f', Settled) && |f'.nodes| == |f.nodes| && f'.marks == f.marks && f'.root == f.root
    requires SameContent(f.nodes[x], f'.nodes[x])
    requires forall y :: 0 <= y < |f.nodes| && y != r ==> f'.nodes[y].parent == f.nodes[y].parent
    ensures PageOk(f', Settled, ld, x)
  {
    assert PageOk(f, Split(l, r), ld, x);
    if f.nodes[x].Inner? {
      forall i | 0 <= i < |f.nodes[x].kids| ensures SameChild(f, Split(l, r), f', Settled, f.nodes[x].kids[i]) {
        OtherKids(f, l, r, ld, x, f.nodes[x].kids[i]);
      }
    }
    PageFrame(f, Split(l, r), f', Settled, ld, x);
  }

  /** `f'` is `f` with the children `tk`, `tc` on page `q` and `r` linked to it. */
  ghost predicate IsEntryIn(f: Forest, f': Forest, q: nat, r: nat, tk: seq<Key>, tc: seq<nat>) {
    && q < |f.nodes| && r < |f.nodes| && q != r && f.nodes[q].Inner?
    && |f'.nodes| == |f.nodes| && f'.marks == f.marks && f'.root == f.root
    && f'.nodes[q] == Inner(f.nodes[q].isRoot, f.nodes[q].parent, tk, tc)
    && f'.nodes[r] == WithParent(f.nodes[r], q)
    && (forall x :: 0 <= x < |f.nodes| && x != q && x != r ==> f'.nodes[x] == f.nodes[x])
  }

  /** The page that receives the entry stays in order. */
  lemma EntryPageKept(f: Forest, f': Forest, ld: Loads, l: nat, r: nat, q: nat, tk: seq<Key>, tc: seq<nat>)
    requires Inv(f, Split(l, r), ld) && l != f.root && q == f.nodes[l].parent && q != l
             && IsEntryIn(f, f', q, r, tk, tc)
    requires InnerOk(f.marks[q], tk, tc, f.marks) && |tk| == |f.nodes[q].keys| + 1 <= ld.inner
    requires forall c: nat :: c in tc <==> c in f.nodes[q].kids || c == r
    ensures InBounds(f', Settled) && PageOk(f', Settled, ld, q)
  {
    assert PageOk(f, Split(l, r), ld, q);
    forall i | 0 <= i < |tc| ensures ParentIs(f', tc[i], q) {
      assert tc[i] in tc;
      if tc[i] != r {
        SoleParent(f, Split(l, r), ld, q, tc[i]);
      }
      assert KidOk(f.marks[q], tk, tc, f.marks, i);
    }
  }

  lemma EntryInKeepsInv(f: Forest, f': Forest, ld: Loads, l: nat, r: nat, q: nat, tk: seq<Key>, tc: seq<nat>)
    requires Inv(f, Split(l, r), ld) && l != f.root && q == f.nodes[l].parent && q != l
             && IsEntryIn(f, f', q, r, tk, tc)
    requires InnerOk(f.marks[q], tk, tc, f.marks) && |tk| == |f.nodes[q].keys| + 1 <= ld.inner
    requires forall c: nat :: c in tc <==> c in f.nodes[q].kids || c == r
    ensures Inv(f', Settled, ld)
  {
    EntryPageKept(f, f', ld, l, r, q, tk, tc);
    forall x | 0 <= x < |f.nodes| && x != q ensures PageOk(f', Settled, ld, x) {
      OtherPageKept(f, f', ld, l, r, x);
    }
    forall x | 0 <= x < |f.nodes| && x != f.root ensures Linked(f', x) {
      if x != r {
        assert Linked(f, x);
      }
    }
  }

  lemma InnerInsertKeepsInv(f: Forest, ld: Loads, l: nat, r: nat, sep: Key)
    requires Inv(f, Split(l, r), ld) && l != f.root && sep == f.marks[l].hi
    requires f.nodes[l].parent < |f.nodes| && f.nodes[f.nodes[l].parent].Inner?
    requires |f.nodes[f.nodes[l].parent].kids| == |f.nodes[f.nodes[l].parent].keys| + 1
    requires |f.nodes[f.nodes[l].parent].keys| < ld.inner
    ensures Inv(AfterInnerInsert(f, l, r, sep), Settled, ld)
  {
    var q := f.nodes[l].parent;
    var n := f.nodes[q];
    PendingParent(f, l, r, ld);
    KidsWithMembers(n.keys, n.kids, sep, r);
    var p := EntryInserts(n.keys, n.kids, sep, r);
    EntryInKeepsInv(f, AfterInnerInsert(f, l, r, sep), ld, l, r, q, KeysWith(n.keys, sep),
      KidsWith(n.keys, n.kids, sep, r));
  }

  function SplitMarks(marks: seq<Mark>, q: nat, pivot: Key): seq<Mark>
    requires q < |marks|
  {
    marks[q := marks[q].(hi := pivot)] + [marks[q].(lo := pivot)]
  }

  /** `f'` is `f` with page `q`, holding `tk` and `tc` once the pending entry is in, cut at separator `h`. */
  ghost predicate IsInnerSplit(f: Forest, f': Forest, q: nat, r: nat, tk: seq<Key>, tc: seq<nat>, h: nat) {
    var n := |f.nodes|;
    && h < |tk| && |tc| == |tk| + 1 && |f.marks| == n && q < n && f.nodes[q].Inner?
    && |f'.nodes| == |f'.marks| == n + 1 && f'.root == f.root
    && f'.nodes[q] == Inner(f.nodes[q].isRoot, f.nodes[q].parent, tk[..h], tc[..h + 1])
    && f'.nodes[n].Inner? && f'.nodes[n].keys == tk[h + 1..] && f'.nodes[n].kids == tc[h + 1..]
    && (forall x :: 0 <= x < n && x != q ==>
          f'.nodes[x] ==
          WithParent(f.nodes[x], if x in f'.nodes[n].kids then n else if x == r then q else f.nodes[x].parent))
    && f'.marks == SplitMarks(f.marks, q, tk[h])
  }

  /** The entry `(sep, r)` splits the full page `q` in the middle. */
  ghost predicate IsEntrySplit(f: Forest, f': Forest, q: nat, r: nat, sep: Key) {
    && q < |f.nodes| && f.nodes[q].Inner? && |f.nodes[q].kids| == |f.nodes[q].keys| + 1
    && IsInnerSplit(f, f', q, r, KeysWith(f.nodes[q].keys, sep), KidsWith(f.nodes[q].keys, f.nodes[q].kids, sep, r),
       |f.nodes[q].keys| / 2)
  }

  lemma InnerSplitPagesOk(f: Forest, f': Forest, q: nat, r: nat, tk: seq<Key>, tc: seq<nat>, h: nat)
    requires IsInnerSplit(f, f', q, r, tk, tc, h) && InnerOk(f.marks[q], tk, tc, f.marks)
    requires f.root < |f.nodes| < TABLE_MAX_PAGES
    ensures var pd' := Split(q, |f.nodes|);
            && InBounds(f', pd')
            && (forall x :: 0 <= x < |f.nodes| ==> Outer(f', pd')[x] == f.marks[x])
            && InnerOk(f'.marks[q], f'.nodes[q].keys, f'.nodes[q].kids, Outer(f', pd'))
            && InnerOk(f'.marks[|f.nodes|], f'.nodes[|f.nodes|].keys, f'.nodes[|f.nodes|].kids, Outer(f', pd'))
            && f.marks[q].lo < f'.marks[q].hi == f'.marks[|f.nodes|].lo < f.marks[q].hi
  {
    var om := Outer(f', Split(q, |f.nodes|));
    assert om == f.marks + [f'.marks[|f.nodes|]];
    InnerOkMoreMarks(f.marks[q], tk, tc, f.marks, om);
    InnerHalvesOk(f.marks[q], tk, tc, om, h);
  }

  lemma InnerOkMoreMarks(m: Mark, keys: seq<Key>, kids: seq<nat>, om: seq<Mark>, om': seq<Mark>)
    requires InnerOk(m, keys, kids, om) && om <= om'
    ensures InnerOk(m, keys, kids, om')
  {
    forall i | 0 <= i < |kids| ensures KidOk(m, keys, kids, om', i) {
      assert KidOk(m, keys, kids, om, i);
    }
  }

  /** After the split every child of either half names the half that holds it. */
  lemma InnerSplitLinks(f: Forest, f': Forest, q: nat, r: nat, tk: seq<Key>, tc: seq<nat>, h: nat)
    requires IsInnerSplit(f, f', q, r, tk, tc, h) && InnerOk(f.marks[q], tk, tc, f.marks)
    requires forall c: nat :: c in tc <==> c in f.nodes[q].kids || c == r
    requires forall c: nat :: c in f.nodes[q].kids ==> c < |f.nodes| && f.nodes[c].parent == q
    ensures (forall i :: 0 <= i < |f'.nodes[q].kids| ==> ParentIs(f', f'.nodes[q].kids[i], q))
    ensures (forall i :: 0 <= i < |f'.nodes[|f.nodes|].kids| ==> ParentIs(f', f'.nodes[|f.nodes|].kids[i], |f.nodes|))
    ensures (forall c: nat :: c in f'.nodes[q].kids || c in f'.nodes[|f.nodes|].kids <==>
              c in f.nodes[q].kids || c == r)
    ensures (forall c: nat :: c in f.nodes[q].kids || c == r ==> c < |f.nodes| && c != q)
  {
    var low, high := tc[..h + 1], tc[h + 1..];
    KidsDistinct(f.marks[q], tk, tc, f.marks);
    HalvesDisjoint(tc, h + 1);
    assert r in tc;
    forall c: nat | c in tc ensures c < |f.nodes| && c != q {
      var i :| 0 <= i < |tc| && tc[i] == c;
      assert KidOk(f.marks[q], tk, tc, f.marks, i);
    }
    forall i | 0 <= i < |low| ensures ParentIs(f', low[i], q) {
      assert low[i] in low && low[i] in tc;
    }
    forall i | 0 <= i < |high| ensures ParentIs(f', high[i], |f.nodes|) {
      assert high[i] in high && high[i] in tc;
    }
  }

  lemma HalvesDisjoint(s: seq<nat>, k: nat)
    requires k <= |s| && forall i, j :: 0 <= i < j < |s| ==> s[i] != s[j]
    ensures forall c: nat :: c in s <==> c in s[..k] || c in s[k..]
    ensures forall c: nat :: c in s[..k] ==> c !in s[k..]
  {
    assert s == s[..k] + s[k..];
    forall c: nat | c in s[..k] ensures c !in s[k..] {
      var i :| 0 <= i < k && s[..k][i] == c;
      assert forall j :: 0 <= j < |s| - k ==> s[k..][j] == s[k + j];
    }
  }

  lemma InnerSplitKeepsInv(f: Forest, f': Forest, ld: Loads, l: nat, r: nat, q: nat, sep: Key)
    requires Inv(f, Split(l, r), ld) && GoodLoads(ld) && |f.nodes| < TABLE_MAX_PAGES && l != f.root
             && sep == f.marks[l].hi
    requires q == f.nodes[l].parent && IsEntrySplit(f, f', q, r, sep) && |f.nodes[q].keys| == ld.inner
    ensures Inv(f', Split(q, |f.nodes|), ld)
  {
    var keys, kids := f.nodes[q].keys, f.nodes[q].kids;
    PendingParent(f, l, r, ld);
    KidsWithMembers(keys, kids, sep, r);
    InnerSplitAssembly(f, f', ld, l, r, q, KeysWith(keys, sep), KidsWith(keys, kids, sep, r), ld.inner / 2);
  }

  lemma InnerSplitAssembly(f: Forest, f': Forest, ld: Loads, l: nat, r: nat, q: nat, tk: seq<Key>, tc: seq<nat>, h: nat)
    requires Inv(f, Split(l, r), ld) && GoodLoads(ld) && |f.nodes| < TABLE_MAX_PAGES && l != f.root
    requires q == f.nodes[l].parent < |f.nodes| && q != r && IsInnerSplit(f, f', q, r, tk, tc, h)
             && InnerOk(f.marks[q], tk, tc, f.marks)
    requires forall c: nat :: c in tc <==> c in f.nodes[q].kids || c == r
    requires ld.inner == 2 * h == |tk| - 1
    ensures Inv(f', Split(q, |f.nodes|), ld)
  {
    forall c: nat | c in f.nodes[q].kids ensures c < |f.nodes| && f.nodes[c].parent == q {
      SoleParent(f, Split(l, r), ld, q, c);
    }
    InnerSplitPagesOk(f, f', q, r, tk, tc, h);
    InnerSplitLinks(f, f', q, r, tk, tc, h);
    assert PageOk(f, Split(l, r), ld, q);
    assert PageOk(f', Split(q, |f.nodes|), ld, q);
    assert PageOk(f', Split(q, |f.nodes|), ld, |f.nodes|);
    InnerSplitFrame(f, f', ld, l, r, q);
  }

  /** A page other than the one that is split stays in order. */
  lemma BesideSplit(f: Forest, f': Forest, ld: Loads, l: nat, r: nat, q: nat, x: nat)
    requires Inv(f, Split(l, r), ld) && l != f.root && q == f.nodes[l].parent < |f.nodes| && q != r && f.nodes[q].Inner?
    requires |f'.nodes| == |f.nodes| + 1 && InBounds(f', Split(q, |f.nodes|)) && f'.root == f.root
             && f'.nodes[|f.nodes|].Inner?
    requires x < |f.nodes| && x != q && SameContent(f.nodes[x], f'.nodes[x])
    requires forall y :: 0 <= y < |f.nodes| && y != r && y !in f.nodes[q].kids ==>
               f'.nodes[y].parent == f.nodes[y].parent
    requires forall y :: 0 <= y < |f.nodes| ==> Outer(f', Split(q, |f.nodes|))[y] == f.marks[y]
    ensures PageOk(f', Split(q, |f.nodes|), ld, x)
  {
    var pd, pd' := Split(l, r), Split(q, |f.nodes|);
    assert PageOk(f, pd, ld, x);
    if f.nodes[x].Inner? {
      forall i | 0 <= i < |f.nodes[x].kids| ensures SameChild(f, pd, f', pd', f.nodes[x].kids[i]) {
        var c := f.nodes[x].kids[i];
        OtherKids(f, l, r, ld, x, c);
        if c in f.nodes[q].kids {
          SoleParent(f, pd, ld, q, c);
        }
      }
    }
    assert f'.marks[x] == Outer(f', pd')[x];
    PageFrame(f, pd, f', pd', ld, x);
  }

  lemma InnerSplitFrame(f: Forest, f': Forest, ld: Loads, l: nat, r: nat, q: nat)
    requires Inv(f, Split(l, r), ld) && GoodLoads(ld) && l != f.root && q == f.nodes[l].parent < |f.nodes| && q != r
    requires |f'.nodes| == |f.nodes| + 1 && InBounds(f', Split(q, |f.nodes|)) && f'.root == f.root
    requires f.nodes[q].Inner? && f'.nodes[q].Inner? && f'.nodes[|f.nodes|].Inner?
    requires f'.nodes[q].parent == f.nodes[q].parent
    requires forall x :: 0 <= x < |f.nodes| && x != q ==>
               f'.nodes[x] == WithParent(f.nodes[x],
                 if x in f'.nodes[|f.nodes|].kids then |f.nodes| else if x == r then q else f.nodes[x].parent)
    requires forall x :: 0 <= x < |f.nodes| ==> Outer(f', Split(q, |f.nodes|))[x] == f.marks[x]
    requires PageOk(f', Split(q, |f.nodes|), ld, q) && PageOk(f', Split(q, |f.nodes|), ld, |f.nodes|)
    requires forall c: nat :: c in f'.nodes[q].kids || c in f'.nodes[|f.nodes|].kids <==> c in f.nodes[q].kids || c == r
    requires forall c: nat :: c in f.nodes[q].kids || c == r ==> c < |f.nodes| && c != q
    ensures Inv(f', Split(q, |f.nodes|), ld)
  {
    var pd, pd' := Split(l, r), Split(q, |f.nodes|);
    forall x | 0 <= x < |f.nodes| && x != q ensures PageOk(f', pd', ld, x) {
      BesideSplit(f, f', ld, l, r, q, x);
    }
    forall x | 0 <= x < |f.nodes| && x != f.root ensures Linked(f', x) {
      if x != r {
        assert Linked(f, x);
      }
    }
    forall x | 0 <= x < |f'.nodes| ensures NotKid(f', x, |f.nodes|) {
      if x < |f.nodes| && x != q {
        KidsInRange(f, pd, ld, x);
      }
    }
    assert RootOk(f, pd);
    if f.root in f.nodes[q].kids {
      SoleParent(f, pd, ld, q, f.root);
    }
  }

  lemma SoleParent(f: Forest, pd: Pending, ld: Loads, q: nat, c: nat)
    requires Inv(f, pd, ld) && q < |f.nodes| && f.nodes[q].Inner? && c in f.nodes[q].kids
    ensures c < |f.nodes| && f.nodes[c].parent == q
  {
    assert PageOk(f, pd, ld, q);
    var i :| 0 <= i < |f.nodes[q].kids| && f.nodes[q].kids[i] == c;
    assert ParentIs(f, f.nodes[q].kids[i], q);
  }

  /** The old root was split: a new root takes the pair as its two children. */
  function AfterNewRoot(f: Forest, l: nat, r: nat, sep: Key): Forest
    requires l < |f.nodes| == |f.marks| && r < |f.nodes| && l != r
  {
    var n := |f.nodes|;
    Forest(f.nodes[l := WithRoot(WithParent(f.nodes[l], n), false)][r := WithParent(f.nodes[r], n)]
           + [Inner(true, NODE_PARENT_INVALID, [sep], [l, r])],
           f.marks + [Mark(f.marks[l].level + 1, -1, UINT32_MAX)], n)
  }

  /** Pages below the new root stay in order and linked. */
  lemma BelowNewRoot(f: Forest, f': Forest, ld: Loads, l: nat, r: nat, x: nat)
    requires Inv(f, Split(l, r), ld) && |f.nodes| < TABLE_MAX_PAGES && l == f.root && x < |f.nodes|
    requires |f'.nodes| == |f.nodes| + 1 && |f'.marks| == |f.marks| + 1 && f'.marks[..|f.marks|] == f.marks
             && f'.root == |f.nodes|
    requires f'.marks[f'.root].level == f.marks[l].level + 1
    requires forall y :: 0 <= y < |f.nodes| ==> SameContent(f.nodes[y], f'.nodes[y])
    requires forall y :: 0 <= y < |f.nodes| && y != l && y != r ==> f'.nodes[y].parent == f.nodes[y].parent
    ensures InBounds(f', Settled) && PageOk(f', Settled, ld, x)
    ensures x != l && x != r ==> Linked(f', x)
  {
    var pd := Split(l, r);
    assert PageOk(f, pd, ld, x);
    if f.nodes[x].Inner? {
      forall i | 0 <= i < |f.nodes[x].kids| ensures SameChild(f, pd, f', Settled, f.nodes[x].kids[i]) {
        OtherKids(f, l, r, ld, x, f.nodes[x].kids[i]);
      }
    }
    PageFrame(f, pd, f', Settled, ld, x);
    assert x != l && x != r ==> Linked(f, x);
  }

  /** The new root is in order. */
  lemma NewRootOk(f: Forest, ld: Loads, l: nat, r: nat, sep: Key)
    requires Inv(f, Split(l, r), ld) && GoodLoads(ld) && |f.nodes| < TABLE_MAX_PAGES && l == f.root
             && sep == f.marks[l].hi
    ensures var f' := AfterNewRoot(f, l, r, sep);
            InBounds(f', Settled) && PageOk(f', Settled, ld, |f.nodes|) && RootOk(f', Settled)
  {
    var f', n := AfterNewRoot(f, l, r, sep), |f.nodes|;
    assert PageOk(f, Split(l, r), ld, l) && PageOk(f, Split(l, r), ld, r) && RootOk(f, Split(l, r));
    var m, keys, kids := f'.marks[n], f'.nodes[n].keys, f'.nodes[n].kids;
    assert KidOk(m, keys, kids, f'.marks, 0) && KidOk(m, keys, kids, f'.marks, 1);
    assert ParentIs(f', l, n) && ParentIs(f', r, n);
  }

  lemma NewRootKeepsInv(f: Forest, ld: Loads, l: nat, r: nat, sep: Key)
    requires Inv(f, Split(l, r), ld) && GoodLoads(ld) && |f.nodes| < TABLE_MAX_PAGES && l == f.root
             && sep == f.marks[l].hi
    ensures Inv(AfterNewRoot(f, l, r, sep), Settled, ld)
  {
    var f', n := AfterNewRoot(f, l, r, sep), |f.nodes|;
    NewRootOk(f, ld, l, r, sep);
    forall x | 0 <= x < n ensures PageOk(f', Settled, ld, x) && Linked(f', x) {
      BelowNewRoot(f, f', ld, l, r, x);
    }
  }
}
