/** Separators are exact, and the parent links retrace every descent. */
module Separators {
  import opened PageModel
  import opened Forest
  import opened Contents
  import opened RangeVisit
  import opened Paths

  /**
   * Each separator is stored: it is the last key of a leaf below the child left of it, and no key below that child is
   * larger.
   */
  lemma SeparatorIsMaximum(f: Forest, ld: Loads, rows: map<Key, Row>, p: nat, i: nat)
      returns (path: seq<nat>, leaf: nat)
    requires Inv(f, Settled, ld) && Holds(f.nodes, rows) && p < |f.nodes| && f.nodes[p].Inner? && i < |f.nodes[p].keys|
    ensures |f.nodes[p].kids| == |f.nodes[p].keys| + 1 && f.nodes[p].keys[i] in rows
    ensures IsPath(f, path, f.nodes[p].kids[i], leaf) && f.nodes[leaf].Leaf? && |f.nodes[leaf].cells| > 0
    ensures f.nodes[leaf].cells[|f.nodes[leaf].cells| - 1].key == f.nodes[p].keys[i]
    ensures forall way: seq<nat>, q: nat, k ::
              IsPath(f, way, f.nodes[p].kids[i], q) && 0 <= k < |NodeKeys(f.nodes[q])| ==>
              NodeKeys(f.nodes[q])[k] <= f.nodes[p].keys[i]
  {
    assert PageOk(f, Settled, ld, p);
    ChildEdges(f, ld, p, i);
    EdgesGrow(f, ld, p, i, i + 1);
    path := DescentPath(f, ld, f.nodes[p].kids[i], f.nodes[p].keys[i]);
    leaf := path[|path| - 1];
    PathNests(f, ld, path, f.nodes[p].kids[i], leaf);
    assert PageOk(f, Settled, ld, leaf);
    var cells := f.nodes[leaf].cells;
    assert HasCell(f.nodes, leaf, cells[|cells| - 1]);
    assert Stored(f.nodes, cells[|cells| - 1]);
    forall way: seq<nat>, q: nat, k | IsPath(f, way, f.nodes[p].kids[i], q) && 0 <= k < |NodeKeys(f.nodes[q])|
      ensures NodeKeys(f.nodes[q])[k] <= f.nodes[p].keys[i]
    {
      SubtreesSplit(f, ld, p, i, i, way, q, k);
    }
  }

  /** The last key of every leaf but the rightmost is a separator. */
  lemma {:induction false} MaximumIsSeparator(f: Forest, ld: Loads, p: nat) returns (q: nat, i: nat)
    requires Inv(f, Settled, ld) && p < |f.nodes| && f.marks[p].hi < UINT32_MAX
    ensures q < |f.nodes| && f.nodes[q].Inner? && i < |f.nodes[q].keys| && f.nodes[q].keys[i] == f.marks[p].hi
    ensures f.nodes[p].Leaf? ==>
              |f.nodes[p].cells| > 0 && f.nodes[p].cells[|f.nodes[p].cells| - 1].key == f.nodes[q].keys[i]
    decreases f.marks[f.root].level - f.marks[p].level
  {
    assert PageOk(f, Settled, ld, p);
    ParentOwns(f, ld, p);
    q := f.nodes[p].parent;
    assert PageOk(f, Settled, ld, q);
    i :| 0 <= i < |f.nodes[q].kids| && f.nodes[q].kids[i] == p;
    ChildEdges(f, ld, q, i);
    if i == |f.nodes[q].keys| {
      q, i := MaximumIsSeparator(f, ld, q);
    }
  }

  /** A separator does not cut the interval of any page further down. */
  lemma NoSeparatorInside(f: Forest, ld: Loads, q: nat, j: nat, p: nat)
    requires Inv(f, Settled, ld) && q < |f.nodes| && f.nodes[q].Inner? && j < |f.nodes[q].keys|
    requires p < |f.nodes| && Under(f, p, q) && f.marks[p].level < f.marks[q].level
    ensures f.nodes[q].keys[j] <= f.marks[p].lo || f.marks[p].hi <= f.nodes[q].keys[j]
  {
    var c := UnderSomeChild(f, ld, q, p);
    ChildEdges(f, ld, q, c);
    if j < c {
      EdgesGrow(f, ld, q, j + 1, c);
    } else {
      EdgesGrow(f, ld, q, c + 1, j + 1);
    }
  }

  /** No key is a separator twice. */
  lemma SeparatorOnce(f: Forest, ld: Loads, p: nat, i: nat, q: nat, j: nat)
    requires Inv(f, Settled, ld) && p < |f.nodes| && q < |f.nodes| && f.nodes[p].Inner? && f.nodes[q].Inner?
    requires i < |f.nodes[p].keys| && j < |f.nodes[q].keys| && f.nodes[p].keys[i] == f.nodes[q].keys[j]
    requires f.marks[p].level <= f.marks[q].level
    ensures p == q && i == j
  {
    assert PageOk(f, Settled, ld, p) && PageOk(f, Settled, ld, q);
    var s := f.nodes[q].keys[j];
    var a := Ancestor(f, ld, p, f.marks[q].level);
    UniqueOwner(f, ld, a, q, s);
    if f.marks[p].level < f.marks[q].level {
      NoSeparatorInside(f, ld, q, j, p);
      assert false;
    }
    UniqueOwner(f, ld, p, q, s);
  }

  /** A way down from `p` to a leaf by pages that own `key`, a level at a time; each names the one before as parent. */
  ghost predicate IsDescent(f: Forest, path: seq<nat>, p: nat, key: Key) {
    && |f.marks| == |f.nodes| && p < |f.nodes| && |path| == f.marks[p].level + 1 && path[0] == p
    && (forall x :: 0 <= x < |path| ==>
          path[x] < |f.nodes| && Owns(f, path[x], key) && f.marks[path[x]].level == f.marks[p].level - x)
    && (forall x :: 0 <= x < |path| - 1 ==> IsChild(f, path[x], path[x + 1]) && f.nodes[path[x + 1]].parent == path[x])
    && f.nodes[path[|path| - 1]].Leaf?
  }

  lemma DescentGrows(f: Forest, p: nat, c: nat, rest: seq<nat>, key: Key)
    requires IsDescent(f, rest, c, key) && p < |f.nodes| && Owns(f, p, key)
    requires IsChild(f, p, c) && f.nodes[c].parent == p && f.marks[c].level == f.marks[p].level - 1
    ensures IsDescent(f, [p] + rest, p, key)
  {
    var path := [p] + rest;
    assert forall x :: 0 < x < |path| ==> path[x] == rest[x - 1];
    forall x | 0 <= x < |path| - 1
      ensures IsChild(f, path[x], path[x + 1]) && f.nodes[path[x + 1]].parent == path[x]
    {
      if x > 0 {
        assert IsChild(f, rest[x - 1], rest[x - 1 + 1]);
      }
    }
  }

  /** The pages a search for `key` passes. */
  lemma {:induction false} DescentPath(f: Forest, ld: Loads, p: nat, key: Key) returns (path: seq<nat>)
    requires Inv(f, Settled, ld) && p < |f.nodes| && Owns(f, p, key)
    ensures IsDescent(f, path, p, key) && IsPath(f, path, p, path[|path| - 1])
    decreases f.marks[p].level
  {
    assert PageOk(f, Settled, ld, p);
    if f.nodes[p].Leaf? {
      path := [p];
    } else {
      var keys := f.nodes[p].keys;
      var pos := Slot(keys, key) - 1;
      var slot := if pos >= 0 && keys[pos] == key then pos else pos + 1;
      DescentStep(f, ld, p, key, slot);
      ChildEdges(f, ld, p, slot);
      var c := f.nodes[p].kids[slot];
      assert ParentIs(f, f.nodes[p].kids[slot], p);
      assert IsChild(f, p, c);
      var rest := DescentPath(f, ld, c, key);
      DescentGrows(f, p, c, rest, key);
      path := [p] + rest;
    }
  }
}
