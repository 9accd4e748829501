/** Where the runtime checker and the tree invariant part (src/core/btree.cpp, check_valid). */
module Checker {
  import opened PageModel
  import opened Forest
  import opened Protocol

  /** What the checker can object to on a sound tree: a stray root byte, or less than half of the load asked for. */
  predicate PagePasses(nodes: seq<Node>, root: nat, innerLoad: nat, p: nat)
    requires p < |nodes|
  {
    nodes[p].Inner? && p != root ==> !nodes[p].isRoot && 2 * |nodes[p].keys| >= innerLoad
  }

  /** A root byte that is set on another inner page stays within the invariant, and the checker throws on it. */
  lemma StrayRootByte(f: Forest, f': Forest, ld: Loads, innerLoad: nat, p: nat)
    requires Inv(f, Settled, ld) && p < |f.nodes| && p != f.root && f.nodes[p].Inner?
    requires f' == f.(nodes := f.nodes[p := WithRoot(f.nodes[p], true)])
    ensures Inv(f', Settled, ld) && !PagePasses(f'.nodes, f'.root, innerLoad, p)
  {
    forall q | 0 <= q < |f.nodes| ensures PageOk(f', Settled, ld, q) && (q != f.root ==> Linked(f', q)) {
      assert PageOk(f, Settled, ld, q);
      assert q != f.root ==> Linked(f, q);
      forall c: nat | true ensures SameChild(f, Settled, f', Settled, c) {
      }
      PageFrame(f, Settled, f', Settled, ld, q);
    }
  }

  /** The root byte of a leaf makes no difference to any page. */
  lemma LeafByteIgnored(nodes: seq<Node>, root: nat, innerLoad: nat, p: nat, flag: bool, q: nat)
    requires p < |nodes| && nodes[p].Leaf? && q < |nodes|
    ensures PagePasses(nodes[p := WithRoot(nodes[p], flag)], root, innerLoad, q) <==>
              PagePasses(nodes, root, innerLoad, q)
  {
  }

  /** A pending right page that holds less than half of the load asked for still does when the climb has ended. */
  lemma HalvesStayBehind(f: Forest, ld: Loads, l: nat, r: nat, sep: Key, innerLoad: nat)
    requires Inv(f, Split(l, r), ld) && GoodLoads(ld) && |f.nodes| < TABLE_MAX_PAGES && sep == f.marks[l].hi
    requires f.nodes[r].Inner? && 2 * |f.nodes[r].keys| < innerLoad
    ensures l != f.root ==> HasParent(f, l) && !PagePasses(AfterInnerInsert(f, l, r, sep).nodes, f.root, innerLoad, r)
    ensures l == f.root ==> !PagePasses(AfterNewRoot(f, l, r, sep).nodes, |f.nodes|, innerLoad, r)
  {
    if l != f.root {
      PendingParent(f, l, r, ld);
    }
  }

  function Keyed(key: Key): Cell {
    Cell(key, [])
  }

  const TOP: int := UINT32_MAX

  /** The trees and half-split stages that inserting the keys 1 to 7 with loads of two goes through. */
  const ONE: Forest := Forest([Leaf(true, NODE_PARENT_INVALID, [Keyed(1)])], [Mark(0, -1, TOP)], 0)
  const TWO: Forest := Forest([Leaf(true, NODE_PARENT_INVALID, [Keyed(1), Keyed(2)])], [Mark(0, -1, TOP)], 0)

  const THREE_CUT: Forest := Forest(
    [Leaf(true, NODE_PARENT_INVALID, [Keyed(1), Keyed(2)]), Leaf(false, 0, [Keyed(3)])],
    [Mark(0, -1, 2), Mark(0, 2, TOP)], 0)

  const THREE: Forest := Forest(
    [Leaf(false, 2, [Keyed(1), Keyed(2)]), Leaf(false, 2, [Keyed(3)]), Inner(true, NODE_PARENT_INVALID, [2], [0, 1])],
    [Mark(0, -1, 2), Mark(0, 2, TOP), Mark(1, -1, TOP)], 2)

  const FOUR: Forest := Forest(
    [Leaf(false, 2, [Keyed(1), Keyed(2)]), Leaf(false, 2, [Keyed(3), Keyed(4)]),
     Inner(true, NODE_PARENT_INVALID, [2], [0, 1])],
    [Mark(0, -1, 2), Mark(0, 2, TOP), Mark(1, -1, TOP)], 2)

  const FIVE_CUT: Forest := Forest(
    [Leaf(false, 2, [Keyed(1), Keyed(2)]), Leaf(false, 2, [Keyed(3), Keyed(4)]),
     Inner(true, NODE_PARENT_INVALID, [2], [0, 1]), Leaf(false, 0, [Keyed(5)])],
    [Mark(0, -1, 2), Mark(0, 2, 4), Mark(1, -1, TOP), Mark(0, 4, TOP)], 2)

  const FIVE: Forest := Forest(
    [Leaf(false, 2, [Keyed(1), Keyed(2)]), Leaf(false, 2, [Keyed(3), Keyed(4)]),
     Inner(true, NODE_PARENT_INVALID, [2, 4], [0, 1, 3]), Leaf(false, 2, [Keyed(5)])],
    [Mark(0, -1, 2), Mark(0, 2, 4), Mark(1, -1, TOP), Mark(0, 4, TOP)], 2)

  const SIX: Forest := Forest(
    [Leaf(false, 2, [Keyed(1), Keyed(2)]), Leaf(false, 2, [Keyed(3), Keyed(4)]),
     Inner(true, NODE_PARENT_INVALID, [2, 4], [0, 1, 3]), Leaf(false, 2, [Keyed(5), Keyed(6)])],
    [Mark(0, -1, 2), Mark(0, 2, 4), Mark(1, -1, TOP), Mark(0, 4, TOP)], 2)

  const SEVEN_CUT: Forest := Forest(
    [Leaf(false, 2, [Keyed(1), Keyed(2)]), Leaf(false, 2, [Keyed(3), Keyed(4)]),
     Inner(true, NODE_PARENT_INVALID, [2, 4], [0, 1, 3]), Leaf(false, 2, [Keyed(5), Keyed(6)]),
     Leaf(false, 0, [Keyed(7)])],
    [Mark(0, -1, 2), Mark(0, 2, 4), Mark(1, -1, TOP), Mark(0, 4, 6), Mark(0, 6, TOP)], 2)

  /** Page 5 was allocated with its root byte set. */
  const SEVEN_HALVES: Forest := Forest(
    [Leaf(false, 2, [Keyed(1), Keyed(2)]), Leaf(false, 2, [Keyed(3), Keyed(4)]),
     Inner(true, NODE_PARENT_INVALID, [2], [0, 1]), Leaf(false, 5, [Keyed(5), Keyed(6)]), Leaf(false, 5, [Keyed(7)]),
     Inner(true, 0, [6], [3, 4])],
    [Mark(0, -1, 2), Mark(0, 2, 4), Mark(1, -1, 4), Mark(0, 4, 6), Mark(0, 6, TOP), Mark(1, 4, TOP)], 2)

  const STRAY: Forest := Forest(
    [Leaf(false, 2, [Keyed(1), Keyed(2)]), Leaf(false, 2, [Keyed(3), Keyed(4)]),
     Inner(false, 6, [2], [0, 1]), Leaf(false, 5, [Keyed(5), Keyed(6)]), Leaf(false, 5, [Keyed(7)]),
     Inner(true, 6, [6], [3, 4]), Inner(true, NODE_PARENT_INVALID, [4], [2, 5])],
    [Mark(0, -1, 2), Mark(0, 2, 4), Mark(1, -1, 4), Mark(0, 4, 6), Mark(0, 6, TOP), Mark(1, 4, TOP),
     Mark(2, -1, TOP)],
    6)

  const TWOS: Loads := Loads(2, 2)

  lemma PutStep(f: Forest, p: nat, key: Key, f': Forest)
    requires Awaits(f, p, key) && |f.nodes[p].cells| < 2 && f' == AfterLeafInsert(f, p, key, [])
    requires Reached(TWOS, Stage(f, Settled))
    ensures Reached(TWOS, Stage(f', Settled))
  {
    NextReached(TWOS, Stage(f, Settled), PutCell(p, key, []), Stage(f', Settled));
  }

  lemma CutStep(f: Forest, p: nat, key: Key, f': Forest)
    requires Awaits(f, p, key) && |f.nodes[p].cells| == 2 && |f.nodes| < TABLE_MAX_PAGES
    requires f' == AfterLeafSplit(f, p, key, [], false, 0) && Reached(TWOS, Stage(f, Settled))
    ensures Reached(TWOS, Stage(f', Split(p, |f.nodes|)))
  {
    NextReached(TWOS, Stage(f, Settled), CutLeaf(p, key, [], false, 0), Stage(f', Split(p, |f.nodes|)));
  }

  lemma OneTwo()
    ensures Reached(TWOS, Stage(TWO, Settled))
  {
    EmptyReached(TWOS);
    assert CellsWith([], 1, []) == [Keyed(1)];
    assert AfterLeafInsert(EMPTY_TREE, 0, 1, []).nodes == ONE.nodes;
    PutStep(EMPTY_TREE, 0, 1, ONE);
    assert CellsWith([Keyed(1)], 2, []) == [Keyed(1), Keyed(2)];
    assert AfterLeafInsert(ONE, 0, 2, []).nodes == TWO.nodes;
    PutStep(ONE, 0, 2, TWO);
  }

  lemma Three()
    ensures Reached(TWOS, Stage(THREE, Settled))
  {
    OneTwo();
    var cut := AfterLeafSplit(TWO, 0, 3, [], false, 0);
    assert cut.nodes == THREE_CUT.nodes && cut.marks == THREE_CUT.marks;
    CutStep(TWO, 0, 3, THREE_CUT);
    var grown := AfterNewRoot(THREE_CUT, 0, 1, 2);
    assert grown.nodes == THREE.nodes && grown.marks == THREE.marks;
    NextReached(TWOS, Stage(THREE_CUT, Split(0, 1)), GrowRoot, Stage(THREE, Settled));
  }

  lemma Four()
    ensures Reached(TWOS, Stage(FOUR, Settled))
  {
    Three();
    assert CellsWith([Keyed(3)], 4, []) == [Keyed(3), Keyed(4)];
    assert AfterLeafInsert(THREE, 1, 4, []).nodes == FOUR.nodes;
    PutStep(THREE, 1, 4, FOUR);
  }

  lemma FiveCut()
    ensures Reached(TWOS, Stage(FIVE_CUT, Split(1, 3)))
  {
    Four();
    var cut := AfterLeafSplit(FOUR, 1, 5, [], false, 0);
    assert cut.nodes == FIVE_CUT.nodes && cut.marks == FIVE_CUT.marks;
    CutStep(FOUR, 1, 5, FIVE_CUT);
  }

  lemma Five()
    ensures Reached(TWOS, Stage(FIVE, Settled))
  {
    FiveCut();
    assert KeysWith([2], 4) == [2, 4] && KidsWith([2], [0, 1], 4, 3) == [0, 1, 3];
    var taken := AfterInnerInsert(FIVE_CUT, 1, 3, 4);
    assert taken.nodes == FIVE.nodes;
    NextReached(TWOS, Stage(FIVE_CUT, Split(1, 3)), TakeEntry, Stage(FIVE, Settled));
  }

  lemma SevenCut()
    ensures Reached(TWOS, Stage(SEVEN_CUT, Split(3, 4)))
  {
    Five();
    assert CellsWith([Keyed(5)], 6, []) == [Keyed(5), Keyed(6)];
    assert AfterLeafInsert(FIVE, 3, 6, []).nodes == SIX.nodes;
    PutStep(FIVE, 3, 6, SIX);
    var cut := AfterLeafSplit(SIX, 3, 7, [], false, 0);
    assert cut.nodes == SEVEN_CUT.nodes && cut.marks == SEVEN_CUT.marks;
    CutStep(SIX, 3, 7, SEVEN_CUT);
  }

  /** The full inner page 2 is cut around its middle separator. */
  lemma CutInTwo()
    ensures IsEntrySplit(SEVEN_CUT, SEVEN_HALVES, 2, 4, 6)
  {
    var tk, tc := KeysWith([2, 4], 6), KidsWith([2, 4], [0, 1, 3], 6, 4);
    assert tk == [2, 4, 6] && tc == [0, 1, 3, 4];
    assert tk[..1] == [2] && tc[..2] == [0, 1] && tk[2..] == [6] && tc[2..] == [3, 4];
    assert SEVEN_HALVES.marks == SplitMarks(SEVEN_CUT.marks, 2, 4);
    assert IsInnerSplit(SEVEN_CUT, SEVEN_HALVES, 2, 4, tk, tc, 1);
  }

  lemma SevenHalves()
    ensures Reached(TWOS, Stage(SEVEN_HALVES, Split(2, 5)))
  {
    SevenCut();
    CutInTwo();
    NextReached(TWOS, Stage(SEVEN_CUT, Split(3, 4)), CutParent, Stage(SEVEN_HALVES, Split(2, 5)));
  }

  /**
   * Inserting 1 to 7 in order, with a root byte set in the memory of page 5, gives a tree on which the checker throws.
   */
  lemma StrayExample()
    ensures Reached(TWOS, Stage(STRAY, Settled)) && !PagePasses(STRAY.nodes, STRAY.root, 2, 5)
  {
    SevenHalves();
    var grown := AfterNewRoot(SEVEN_HALVES, 2, 5, 4);
    assert grown.nodes == STRAY.nodes && grown.marks == STRAY.marks;
    NextReached(TWOS, Stage(SEVEN_HALVES, Split(2, 5)), GrowRoot, Stage(STRAY, Settled));
  }
}
