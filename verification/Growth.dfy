/** How many pages an insert allocates: one per full page from the leaf up, and one more for a new root. */
module Growth {
  import opened PageModel
  import opened Forest

  /** `c` is at or above the level of a pending split and not its unlinked half. */
  ghost predicate AtSplit(f: Forest, pd: Pending, c: nat) {
    && |f.marks| == |f.nodes| && c < |f.nodes|
    && (pd.Split? ==> pd.right < |f.nodes| && c != pd.right && f.marks[c].level >= f.marks[pd.right].level)
  }

  lemma ParentLevel(f: Forest, pd: Pending, ld: Loads, c: nat)
    requires Inv(f, pd, ld) && AtSplit(f, pd, c) && c != f.root
    ensures var q := f.nodes[c].parent;
            && q < |f.nodes| && f.nodes[q].Inner? && AtSplit(f, pd, q)
            && f.marks[q].level == f.marks[c].level + 1 <= f.marks[f.root].level
  {
    assert Linked(f, c);
    var q := f.nodes[c].parent;
    assert PageOk(f, pd, ld, q) && PageOk(f, pd, ld, c);
    var i :| 0 <= i < |f.nodes[q].kids| && f.nodes[q].kids[i] == c;
    assert KidOk(f.marks[q], f.nodes[q].keys, f.nodes[q].kids, Outer(f, pd), i);
  }

  lemma ParentLoad(f: Forest, pd: Pending, ld: Loads, c: nat)
    requires Inv(f, pd, ld) && AtSplit(f, pd, c) && f.nodes[c].parent != NODE_PARENT_INVALID
    ensures c != f.root && f.nodes[c].parent < |f.nodes| && f.nodes[f.nodes[c].parent].Inner?
    ensures |f.nodes[f.nodes[c].parent].keys| <= ld.inner
  {
    assert RootOk(f, pd);
    ParentLevel(f, pd, ld, c);
    assert PageOk(f, pd, ld, f.nodes[c].parent);
  }

  /** Pages still to be allocated once page `c` has been split. */
  ghost function ClimbNeed(f: Forest, pd: Pending, ld: Loads, c: nat): nat
    requires Inv(f, pd, ld) && AtSplit(f, pd, c)
    decreases f.marks[f.root].level - f.marks[c].level
  {
    if c == f.root then 1
    else
      ParentLevel(f, pd, ld, c);
      var q := f.nodes[c].parent;
      if |f.nodes[q].keys| < ld.inner then 0 else 1 + ClimbNeed(f, pd, ld, q)
  }

  /** Pages allocated by inserting into leaf `p`. */
  ghost function LeafNeed(f: Forest, ld: Loads, p: nat): nat
    requires Inv(f, Settled, ld) && p < |f.nodes| && f.nodes[p].Leaf?
  {
    if |f.nodes[p].cells| < ld.leaf then 0 else 1 + ClimbNeed(f, Settled, ld, p)
  }

  /** The page above `c` is full. */
  ghost predicate FullParent(f: Forest, ld: Loads, c: nat) {
    && c < |f.nodes| && c != f.root && f.nodes[c].parent < |f.nodes|
    && f.nodes[f.nodes[c].parent].Inner? && |f.nodes[f.nodes[c].parent].keys| == ld.inner
  }

  /** Inserting into leaf `p` splits an inner page. */
  ghost predicate CutsInner(f: Forest, ld: Loads, p: nat) {
    p < |f.nodes| && f.nodes[p].Leaf? && |f.nodes[p].cells| == ld.leaf && FullParent(f, ld, p)
  }

  /** What is still needed depends only on the pages above. */
  lemma {:induction false} NeedFrame(f: Forest, pd: Pending, f': Forest, pd': Pending, ld: Loads, c: nat)
    requires Inv(f, pd, ld) && Inv(f', pd', ld) && AtSplit(f, pd, c) && AtSplit(f', pd', c)
    requires f'.root == f.root && |f.nodes| <= |f'.nodes| && f'.nodes[c].parent == f.nodes[c].parent
    requires forall x :: 0 <= x < |f.nodes| && f.marks[x].level > f.marks[c].level ==> f'.nodes[x] == f.nodes[x]
    ensures ClimbNeed(f', pd', ld, c) == ClimbNeed(f, pd, ld, c)
    decreases f.marks[f.root].level - f.marks[c].level
  {
    if c != f.root {
      ParentLevel(f, pd, ld, c);
      ParentLevel(f', pd', ld, c);
      NeedFrame(f, pd, f', pd', ld, f.nodes[c].parent);
    }
  }

  /** After a leaf split the climb needs what it needed before. */
  lemma LeafSplitNeed(f: Forest, ld: Loads, p: nat, key: Key, row: Row, flag: bool, junk: nat)
    requires Inv(f, Settled, ld) && p < |f.nodes| && f.nodes[p].Leaf?
    requires Inv(AfterLeafSplit(f, p, key, row, flag, junk), Split(p, |f.nodes|), ld)
    ensures AtSplit(AfterLeafSplit(f, p, key, row, flag, junk), Split(p, |f.nodes|), p)
    ensures ClimbNeed(AfterLeafSplit(f, p, key, row, flag, junk), Split(p, |f.nodes|), ld, p) ==
            ClimbNeed(f, Settled, ld, p)
  {
    assert PageOk(f, Settled, ld, p);
    NeedFrame(f, Settled, AfterLeafSplit(f, p, key, row, flag, junk), Split(p, |f.nodes|), ld, p);
  }

  /** Splitting an inner page uses up one of the pages the climb needed. */
  lemma InnerSplitNeed(f: Forest, f': Forest, ld: Loads, l: nat, r: nat, q: nat, sep: Key)
    requires Inv(f, Split(l, r), ld) && l != f.root && sep == f.marks[l].hi
    requires q == f.nodes[l].parent && IsEntrySplit(f, f', q, r, sep) && |f.nodes[q].keys| == ld.inner
    requires Inv(f', Split(q, |f.nodes|), ld)
    ensures AtSplit(f, Split(l, r), l) && AtSplit(f', Split(q, |f.nodes|), q)
    ensures ClimbNeed(f, Split(l, r), ld, l) == 1 + ClimbNeed(f', Split(q, |f.nodes|), ld, q)
  {
    PendingParent(f, l, r, ld);
    SplitNeedAt(f, f', ld, l, r, q, KeysWith(f.nodes[q].keys, sep), KidsWith(f.nodes[q].keys, f.nodes[q].kids, sep, r),
      ld.inner / 2);
  }

  lemma SplitNeedAt(f: Forest, f': Forest, ld: Loads, l: nat, r: nat, q: nat, tk: seq<Key>, tc: seq<nat>, h: nat)
    requires Inv(f, Split(l, r), ld) && l != f.root && q == f.nodes[l].parent < |f.nodes| && q != r
    requires IsInnerSplit(f, f', q, r, tk, tc, h) && InnerOk(f.marks[q], tk, tc, f.marks)
             && |f.nodes[q].keys| == ld.inner
    requires Inv(f', Split(q, |f.nodes|), ld)
    ensures AtSplit(f', Split(q, |f.nodes|), q)
    ensures ClimbNeed(f, Split(l, r), ld, l) == 1 + ClimbNeed(f', Split(q, |f.nodes|), ld, q)
  {
    ParentLevel(f, Split(l, r), ld, l);
    var high := f'.nodes[|f.nodes|].kids;
    forall x: nat | x in high ensures x < |f.nodes| && f.marks[x].level < f.marks[q].level {
      var i :| 0 <= i < |high| && high[i] == x;
      assert high[i] == tc[i + h + 1];
      assert KidOk(f.marks[q], tk, tc, f.marks, i + h + 1);
    }
    assert forall x: nat :: x < |f.nodes| && f.marks[x].level > f.marks[q].level ==> x !in high && x != r;
    NeedFrame(f, Split(l, r), f', Split(q, |f.nodes|), ld, q);
  }
}
