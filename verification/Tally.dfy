/** Counting pages, cells and separators over the page array. */
module Tally {
  import opened PageModel
  import opened Forest

  datatype Tally = Tally(leaves: int, cells: int, inners: int, keys: int)

  function Weigh(n: Node): Tally {
    match n
    case Leaf(_, _, cells) => Tally(1, |cells|, 0, 0)
    case Inner(_, _, keys, _) => Tally(0, 0, 1, |keys|)
  }

  function Plus(a: Tally, b: Tally): Tally {
    Tally(a.leaves + b.leaves, a.cells + b.cells, a.inners + b.inners, a.keys + b.keys)
  }

  function Minus(a: Tally, b: Tally): Tally {
    Tally(a.leaves - b.leaves, a.cells - b.cells, a.inners - b.inners, a.keys - b.keys)
  }

  function Count(nodes: seq<Node>): Tally {
    if |nodes| == 0 then Tally(0, 0, 0, 0) else Plus(Count(nodes[..|nodes| - 1]), Weigh(nodes[|nodes| - 1]))
  }

  /** There is one leaf more than there are separators, and one more still while a split is pending. */
  ghost predicate Tallied(nodes: seq<Node>, pd: Pending, size: nat) {
    var t := Count(nodes);
    && t.leaves == t.keys + (if pd.Split? then 2 else 1)
    && t.cells == size
    && t.leaves + t.inners == |nodes|
  }

  lemma {:induction false} CountSame(v: seq<Node>, v': seq<Node>)
    requires |v| == |v'| && forall x :: 0 <= x < |v| ==> Weigh(v[x]) == Weigh(v'[x])
    ensures Count(v) == Count(v')
  {
    if |v| > 0 {
      CountSame(v[..|v| - 1], v'[..|v| - 1]);
    }
  }

  lemma {:induction false} CountUpdate(v: seq<Node>, p: nat, n: Node)
    requires p < |v|
    ensures Count(v[p := n]) == Plus(Minus(Count(v), Weigh(v[p])), Weigh(n))
  {
    var u := v[p := n];
    if p == |v| - 1 {
      assert u[..|v| - 1] == v[..|v| - 1];
    } else {
      CountUpdate(v[..|v| - 1], p, n);
      assert u[..|v| - 1] == v[..|v| - 1][p := n];
    }
  }

  lemma CountAppend(v: seq<Node>, n: Node)
    ensures Count(v + [n]) == Plus(Count(v), Weigh(n))
  {
    assert (v + [n])[..|v|] == v;
  }

  /** One page changes weight, all others only their headers, and one page is added. */
  lemma CountStep(v: seq<Node>, v': seq<Node>, q: nat)
    requires |v'| == |v| + 1 && q < |v| && forall x :: 0 <= x < |v| && x != q ==> Weigh(v'[x]) == Weigh(v[x])
    ensures Count(v') == Plus(Plus(Minus(Count(v), Weigh(v[q])), Weigh(v'[q])), Weigh(v'[|v|]))
  {
    var u := v[q := v'[q]];
    CountUpdate(v, q, v'[q]);
    CountSame(u, v'[..|v|]);
    assert v' == v'[..|v|] + [v'[|v|]];
    CountAppend(v'[..|v|], v'[|v|]);
  }

  /** One page changes weight, all others only their headers. */
  lemma CountChange(v: seq<Node>, v': seq<Node>, q: nat)
    requires |v'| == |v| && q < |v| && forall x :: 0 <= x < |v| && x != q ==> Weigh(v'[x]) == Weigh(v[x])
    ensures Count(v') == Plus(Minus(Count(v), Weigh(v[q])), Weigh(v'[q]))
  {
    CountUpdate(v, q, v'[q]);
    CountSame(v[q := v'[q]], v');
  }

  lemma LeafInsertTallied(f: Forest, p: nat, key: Key, row: Row, size: nat)
    requires p < |f.nodes| && f.nodes[p].Leaf? && Tallied(f.nodes, Settled, size)
    ensures Tallied(AfterLeafInsert(f, p, key, row).nodes, Settled, size + 1)
  {
    CountChange(f.nodes, AfterLeafInsert(f, p, key, row).nodes, p);
  }

  lemma LeafSplitTallied(f: Forest, p: nat, key: Key, row: Row, flag: bool, junk: nat, size: nat)
    requires p < |f.nodes| == |f.marks| && f.nodes[p].Leaf? && Tallied(f.nodes, Settled, size)
    ensures Tallied(AfterLeafSplit(f, p, key, row, flag, junk).nodes, Split(p, |f.nodes|), size + 1)
  {
    CountStep(f.nodes, AfterLeafSplit(f, p, key, row, flag, junk).nodes, p);
  }

  lemma InnerInsertTallied(f: Forest, l: nat, r: nat, sep: Key, size: nat)
    requires l < |f.nodes| && r < |f.nodes| && f.nodes[l].parent < |f.nodes| && f.nodes[f.nodes[l].parent].Inner?
    requires |f.nodes[f.nodes[l].parent].kids| == |f.nodes[f.nodes[l].parent].keys| + 1 && r != f.nodes[l].parent
    requires Tallied(f.nodes, Split(l, r), size)
    ensures Tallied(AfterInnerInsert(f, l, r, sep).nodes, Settled, size)
  {
    CountChange(f.nodes, AfterInnerInsert(f, l, r, sep).nodes, f.nodes[l].parent);
  }

  lemma InnerSplitTallied(f: Forest, f': Forest, l: nat, q: nat, r: nat, sep: Key, size: nat)
    requires IsEntrySplit(f, f', q, r, sep) && |f.nodes[q].keys| % 2 == 0 && Tallied(f.nodes, Split(l, r), size)
    ensures Tallied(f'.nodes, Split(q, |f.nodes|), size)
  {
    CountStep(f.nodes, f'.nodes, q);
  }

  lemma NewRootTallied(f: Forest, l: nat, r: nat, sep: Key, size: nat)
    requires l < |f.nodes| == |f.marks| && r < |f.nodes| && l != r && Tallied(f.nodes, Split(l, r), size)
    ensures Tallied(AfterNewRoot(f, l, r, sep).nodes, Settled, size)
  {
    CountStep(f.nodes, AfterNewRoot(f, l, r, sep).nodes, l);
  }
}
