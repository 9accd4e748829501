/** The insert protocol as a state machine over page forests: one step per round of an insert (src/core/btree.cpp). */
module Protocol {
  import opened PageModel
  import opened Forest

  /** A forest with the split that still climbs, if any. */
  datatype Stage = Stage(f: Forest, pd: Pending)

  /** `flag` and `junk` are the root byte and the parent bytes that fresh memory holds. */
  datatype Step =
    | PutCell(p: nat, key: Key, row: Row)
    | CutLeaf(p: nat, key: Key, row: Row, flag: bool, junk: nat)
    | TakeEntry
    | CutParent
    | GrowRoot

  const EMPTY_TREE: Forest := Forest([Leaf(true, NODE_PARENT_INVALID, [])], [Mark(0, -1, UINT32_MAX)], 0)

  /** Leaf `p` owns the key and does not hold it. */
  ghost predicate Awaits(f: Forest, p: nat, key: Key) {
    && p < |f.nodes| == |f.marks| && f.nodes[p].Leaf? && f.marks[p].lo < key <= f.marks[p].hi
    && (forall i :: 0 <= i < |f.nodes[p].cells| ==> f.nodes[p].cells[i].key != key)
  }

  /** The page named as parent by `l` is an inner page. */
  ghost predicate HasParent(f: Forest, l: nat) {
    && l < |f.nodes| && l != f.root && f.nodes[l].parent < |f.nodes|
    && f.nodes[f.nodes[l].parent].Inner? && |f.nodes[f.nodes[l].parent].kids| == |f.nodes[f.nodes[l].parent].keys| + 1
  }

  ghost predicate Pends(s: Stage) {
    && InBounds(s.f, s.pd) && s.pd.Split? && 0 <= s.f.marks[s.pd.left].hi <= UINT32_MAX
  }

  ghost predicate Next(ld: Loads, s: Stage, step: Step, s': Stage) {
    var f := s.f;
    match step
    case PutCell(p, key, row) =>
      && s.pd.Settled? && Awaits(f, p, key) && |f.nodes[p].cells| < ld.leaf
      && s' == Stage(AfterLeafInsert(f, p, key, row), Settled)
    case CutLeaf(p, key, row, flag, junk) =>
      && s.pd.Settled? && Awaits(f, p, key) && |f.nodes[p].cells| == ld.leaf && |f.nodes| < TABLE_MAX_PAGES
      && s' == Stage(AfterLeafSplit(f, p, key, row, flag, junk), Split(p, |f.nodes|))
    case TakeEntry =>
      && Pends(s) && HasParent(f, s.pd.left) && |f.nodes[f.nodes[s.pd.left].parent].keys| < ld.inner
      && s' == Stage(AfterInnerInsert(f, s.pd.left, s.pd.right, f.marks[s.pd.left].hi), Settled)
    case CutParent =>
      && Pends(s) && HasParent(f, s.pd.left) && |f.nodes[f.nodes[s.pd.left].parent].keys| == ld.inner
      && |f.nodes| < TABLE_MAX_PAGES
      && IsEntrySplit(f, s'.f, f.nodes[s.pd.left].parent, s.pd.right, f.marks[s.pd.left].hi)
      && s'.pd == Split(f.nodes[s.pd.left].parent, |f.nodes|)
    case GrowRoot =>
      && Pends(s) && s.pd.left == f.root && |f.nodes| < TABLE_MAX_PAGES
      && s' == Stage(AfterNewRoot(f, s.pd.left, s.pd.right, f.marks[s.pd.left].hi), Settled)
  }

  /** Every step of the protocol keeps the invariant. */
  lemma NextKeepsInv(ld: Loads, s: Stage, step: Step, s': Stage)
    requires GoodLoads(ld) && Inv(s.f, s.pd, ld) && Next(ld, s, step, s')
    ensures Inv(s'.f, s'.pd, ld)
  {
    match step
    case PutCell(p, key, row) =>
      LeafInsertKeepsInv(s.f, ld, p, key, row);
    case CutLeaf(p, key, row, flag, junk) =>
      LeafSplitKeepsInv(s.f, ld, p, key, row, flag, junk);
    case TakeEntry =>
      InnerInsertKeepsInv(s.f, ld, s.pd.left, s.pd.right, s.f.marks[s.pd.left].hi);
    case CutParent =>
      InnerSplitKeepsInv(s.f, s'.f, ld, s.pd.left, s.pd.right, s.f.nodes[s.pd.left].parent, s.f.marks[s.pd.left].hi);
    case GrowRoot =>
      NewRootKeepsInv(s.f, ld, s.pd.left, s.pd.right, s.f.marks[s.pd.left].hi);
  }

  ghost predicate Follows(ld: Loads, s: Stage, s': Stage) {
    exists step :: Next(ld, s, step, s')
  }

  ghost predicate IsRun(ld: Loads, run: seq<Stage>) {
    && |run| > 0 && run[0] == Stage(EMPTY_TREE, Settled)
    && (forall i :: 0 <= i < |run| - 1 ==> Follows(ld, run[i], run[i + 1]))
  }

  /** Some run from the empty tree ends in this stage. */
  ghost predicate Reached(ld: Loads, s: Stage) {
    exists run :: IsRun(ld, run) && run[|run| - 1] == s
  }

  lemma EmptyReached(ld: Loads)
    ensures Reached(ld, Stage(EMPTY_TREE, Settled))
  {
    assert IsRun(ld, [Stage(EMPTY_TREE, Settled)]);
  }

  lemma NextReached(ld: Loads, s: Stage, step: Step, s': Stage)
    requires Reached(ld, s) && Next(ld, s, step, s')
    ensures Reached(ld, s')
  {
    var run :| IsRun(ld, run) && run[|run| - 1] == s;
    var longer := run + [s'];
    assert Follows(ld, s, s');
    assert IsRun(ld, longer) && longer[|longer| - 1] == s';
  }

  /** A single empty leaf is a tree without rows. */
  lemma EmptyTree(ld: Loads)
    requires GoodLoads(ld)
    ensures Inv(EMPTY_TREE, Settled, ld)
  {
    assert PageOk(EMPTY_TREE, Settled, ld, 0);
  }

  /** At every stage of every run the pages form a valid tree, but for the split that climbs. */
  lemma {:induction false} RunKeepsInv(ld: Loads, run: seq<Stage>, i: nat)
    requires GoodLoads(ld) && IsRun(ld, run) && i < |run|
    ensures Inv(run[i].f, run[i].pd, ld)
  {
    if i == 0 {
      EmptyTree(ld);
    } else {
      RunKeepsInv(ld, run, i - 1);
      assert Follows(ld, run[i - 1], run[i - 1 + 1]);
      var step :| Next(ld, run[i - 1], step, run[i]);
      NextKeepsInv(ld, run[i - 1], step, run[i]);
    }
  }
}
