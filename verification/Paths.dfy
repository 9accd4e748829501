/**
 * Following child links: every page hangs below the root in exactly one place, all leaves at one depth, keys split by
 * separators.
 */
module Paths {
  import opened PageModel
  import opened Forest
  import opened Growth
  import opened RangeVisit
  import opened Contents

  /** Child links lead from `top` down to `p`. */
  ghost predicate IsPath(f: Forest, path: seq<nat>, top: nat, p: nat) {
    && |path| > 0 && path[0] == top && path[|path| - 1] == p
    && (forall x :: 0 <= x < |path| ==> path[x] < |f.nodes|)
    && (forall x :: 0 <= x < |path| - 1 ==> IsChild(f, path[x], path[x + 1]))
  }

  ghost predicate IsChild(f: Forest, p: nat, c: nat) {
    p < |f.nodes| && f.nodes[p].Inner? && c in f.nodes[p].kids
  }

  /** No page is lost. */
  lemma {:induction false} PathExists(f: Forest, ld: Loads, p: nat) returns (path: seq<nat>)
    requires Inv(f, Settled, ld) && p < |f.nodes|
    ensures IsPath(f, path, f.root, p)
    decreases f.marks[f.root].level - f.marks[p].level
  {
    if p == f.root {
      path := [p];
    } else {
      ParentLevel(f, Settled, ld, p);
      assert Linked(f, p);
      var above := PathExists(f, ld, f.nodes[p].parent);
      path := above + [p];
    }
  }

  lemma ChildNamesParent(f: Forest, ld: Loads, p: nat, c: nat)
    requires Inv(f, Settled, ld) && IsChild(f, p, c)
    ensures c < |f.nodes| && f.nodes[c].parent == p && c != f.root
  {
    assert PageOk(f, Settled, ld, p);
    var i :| 0 <= i < |f.nodes[p].kids| && f.nodes[p].kids[i] == c;
    assert ParentIs(f, f.nodes[p].kids[i], p);
  }

  /** No page is shared. */
  lemma {:induction false} PathUnique(f: Forest, ld: Loads, a: seq<nat>, b: seq<nat>, p: nat)
    requires Inv(f, Settled, ld) && IsPath(f, a, f.root, p) && IsPath(f, b, f.root, p)
    ensures a == b
    decreases |a|
  {
    if p == f.root {
      StopsAtRoot(f, ld, a);
      StopsAtRoot(f, ld, b);
    } else {
      var q := f.nodes[p].parent;
      assert IsChild(f, a[|a| - 2], a[|a| - 1]) && IsChild(f, b[|b| - 2], b[|b| - 1]);
      ChildNamesParent(f, ld, a[|a| - 2], p);
      ChildNamesParent(f, ld, b[|b| - 2], p);
      PathUnique(f, ld, a[..|a| - 1], b[..|b| - 1], q);
      assert a == a[..|a| - 1] + [p] && b == b[..|b| - 1] + [p];
    }
  }

  lemma StopsAtRoot(f: Forest, ld: Loads, a: seq<nat>)
    requires Inv(f, Settled, ld) && IsPath(f, a, f.root, f.root)
    ensures a == [f.root]
  {
    if |a| > 1 {
      assert IsChild(f, a[|a| - 2], a[|a| - 1]);
      ChildNamesParent(f, ld, a[|a| - 2], f.root);
    }
  }

  /** Going down, levels fall by one and intervals nest. */
  lemma {:induction false} PathNests(f: Forest, ld: Loads, path: seq<nat>, top: nat, p: nat)
    requires Inv(f, Settled, ld) && IsPath(f, path, top, p)
    ensures f.marks[top].level == f.marks[p].level + |path| - 1
    ensures f.marks[top].lo <= f.marks[p].lo && f.marks[p].hi <= f.marks[top].hi
    decreases |path|
  {
    if |path| > 1 {
      var q := path[|path| - 2];
      assert IsChild(f, q, path[|path| - 1]);
      PathNests(f, ld, path[..|path| - 1], top, q);
      var keys, kids := f.nodes[q].keys, f.nodes[q].kids;
      var i :| 0 <= i < |kids| && kids[i] == p;
      assert PageOk(f, Settled, ld, q);
      ChildEdges(f, ld, q, i);
      EdgesGrow(f, ld, q, 0, i);
      EdgesGrow(f, ld, q, i + 1, |keys| + 1);
    }
  }

  /** All leaves lie at one depth. */
  lemma LeavesLevel(f: Forest, ld: Loads, a: seq<nat>, b: seq<nat>, p: nat, q: nat)
    requires Inv(f, Settled, ld) && IsPath(f, a, f.root, p) && IsPath(f, b, f.root, q)
    requires f.nodes[p].Leaf? && f.nodes[q].Leaf?
    ensures |a| == |b|
  {
    PathNests(f, ld, a, f.root, p);
    PathNests(f, ld, b, f.root, q);
    assert PageOk(f, Settled, ld, p) && PageOk(f, Settled, ld, q);
  }

  /** The whole subtree left of a separator holds keys up to it, the whole subtree right of it larger ones. */
  lemma SubtreesSplit(f: Forest, ld: Loads, q: nat, i: nat, c: nat, path: seq<nat>, p: nat, k: nat)
    requires Inv(f, Settled, ld) && q < |f.nodes| && f.nodes[q].Inner? && i < |f.nodes[q].keys| && c < |f.nodes[q].kids|
    requires IsPath(f, path, f.nodes[q].kids[c], p) && k < |NodeKeys(f.nodes[p])|
    ensures c <= i ==> NodeKeys(f.nodes[p])[k] <= f.nodes[q].keys[i]
    ensures c > i ==> NodeKeys(f.nodes[p])[k] > f.nodes[q].keys[i]
  {
    PathNests(f, ld, path, f.nodes[q].kids[c], p);
    assert PageOk(f, Settled, ld, q) && PageOk(f, Settled, ld, p);
    ChildEdges(f, ld, q, c);
    if c <= i {
      EdgesGrow(f, ld, q, c + 1, i + 1);
    } else {
      EdgesGrow(f, ld, q, i + 1, c);
    }
  }

  /** From page `q` the separators around child `c` lead a search for `key` there. */
  ghost predicate Leads(f: Forest, q: nat, c: nat, key: Key) {
    && q < |f.nodes| && f.nodes[q].Inner? && |f.nodes[q].kids| == |f.nodes[q].keys| + 1
    && (forall i :: 0 <= i < |f.nodes[q].kids| && f.nodes[q].kids[i] == c ==>
          && (i > 0 ==> f.nodes[q].keys[i - 1] < key)
          && (i < |f.nodes[q].keys| ==> key <= f.nodes[q].keys[i]))
  }

  lemma OwnsStep(f: Forest, ld: Loads, q: nat, c: nat, key: Key)
    requires Inv(f, Settled, ld) && IsChild(f, q, c)
    ensures c < |f.nodes| && (Owns(f, c, key) <==> Owns(f, q, key) && Leads(f, q, c, key))
  {
    assert PageOk(f, Settled, ld, q);
    var keys, kids := f.nodes[q].keys, f.nodes[q].kids;
    KidsDistinct(f.marks[q], keys, kids, f.marks);
    var i :| 0 <= i < |kids| && kids[i] == c;
    ChildEdges(f, ld, q, i);
    EdgesGrow(f, ld, q, 0, i);
    EdgesGrow(f, ld, q, i + 1, |keys| + 1);
    assert forall j :: 0 <= j < |kids| && kids[j] == c ==> j == i;
  }

  /** A page owns a key exactly if all separators on the path from the root lead a search for the key there. */
  lemma {:induction false} OwnsBySeparators(f: Forest, ld: Loads, path: seq<nat>, p: nat, key: Key)
    requires Inv(f, Settled, ld) && IsPath(f, path, f.root, p)
    ensures Owns(f, p, key) <==> forall x :: 0 <= x < |path| - 1 ==> Leads(f, path[x], path[x + 1], key)
    decreases |path|
  {
    if |path| == 1 {
      assert RootOk(f, Settled);
    } else {
      var n := |path| - 1;
      assert IsChild(f, path[n - 1], path[n - 1 + 1]);
      var above := path[..n];
      OwnsBySeparators(f, ld, above, path[n - 1], key);
      OwnsStep(f, ld, path[n - 1], p, key);
      assert forall x :: 0 <= x < n ==> above[x] == path[x];
    }
  }
}
