/** Whole runs of inserts: what a tree built by any sequence of inserts holds, and what a full select returns. */
module Runs {
  import opened PageModel
  import opened Forest
  import opened Contents
  import opened Growth
  import opened Bounds
  import opened BPlusTree

  /** The first row inserted under each key. */
  function FirstWins(rows: map<Key, Row>, run: seq<Cell>): map<Key, Row> {
    if |run| == 0 then rows
    else
      var before := FirstWins(rows, run[..|run| - 1]);
      var c := run[|run| - 1];
      if c.key in before then before else before[c.key := c.row]
  }

  ghost predicate DistinctKeys(run: seq<Cell>) {
    forall i, j :: 0 <= i < j < |run| ==> run[i].key != run[j].key
  }

  /** Only keys that were there or occur in the run are there afterwards. */
  lemma {:induction false} FirstWinsKeys(rows: map<Key, Row>, run: seq<Cell>)
    ensures forall k :: k in rows ==> k in FirstWins(rows, run) && FirstWins(rows, run)[k] == rows[k]
    ensures forall k :: k in FirstWins(rows, run) ==> k in rows || exists i :: 0 <= i < |run| && run[i].key == k
    ensures forall i :: 0 <= i < |run| ==> run[i].key in FirstWins(rows, run)
  {
    if |run| > 0 {
      var init, c := run[..|run| - 1], run[|run| - 1];
      FirstWinsKeys(rows, init);
      forall k | k in FirstWins(rows, run) && k !in rows ensures exists i :: 0 <= i < |run| && run[i].key == k {
        if k == c.key {
          assert run[|run| - 1].key == k;
        } else {
          var i :| 0 <= i < |init| && init[i].key == k;
          assert run[i].key == k;
        }
      }
      assert forall i :: 0 <= i < |init| ==> run[i].key == init[i].key;
    }
  }

  ghost predicate FirstAt(run: seq<Cell>, k: Key, i: int) {
    0 <= i < |run| && run[i].key == k && forall j :: 0 <= j < i ==> run[j].key != k
  }

  /** A key that is new gets the row of its first occurrence. */
  lemma {:induction false} FirstWinsRow(rows: map<Key, Row>, run: seq<Cell>, i: nat)
    requires i < |run| && run[i].key !in rows && FirstAt(run, run[i].key, i)
    ensures run[i].key in FirstWins(rows, run) && FirstWins(rows, run)[run[i].key] == run[i].row
  {
    var init := run[..|run| - 1];
    if i < |init| {
      FirstWinsRow(rows, init, i);
    } else {
      FirstWinsKeys(rows, init);
      assert forall j :: 0 <= j < |init| ==> init[j].key == run[j].key;
    }
  }

  predicate Entry(rows: map<Key, Row>, c: Cell) {
    c.key in rows && rows[c.key] == c.row
  }

  /** With distinct keys every cell of the run is there, and nothing else is new. */
  lemma {:induction false} FirstWinsAll(rows: map<Key, Row>, run: seq<Cell>)
    requires DistinctKeys(run) && forall c :: c in run ==> c.key !in rows
    ensures forall x: Cell :: Entry(FirstWins(rows, run), x) <==> Entry(rows, x) || x in run
  {
    if |run| > 0 {
      var init, c := run[..|run| - 1], run[|run| - 1];
      assert run == init + [c];
      assert forall x: Cell :: x in run <==> x in init || x == c;
      FirstWinsAll(rows, init);
      FirstWinsKeys(rows, init);
      assert forall i :: 0 <= i < |init| ==> init[i].key == run[i].key != c.key;
      assert c.key !in FirstWins(rows, init);
      assert FirstWins(rows, run) == FirstWins(rows, init)[c.key := c.row];
      forall x: Cell ensures Entry(FirstWins(rows, run), x) <==> Entry(rows, x) || x in run {
        assert x.key == c.key ==> !Entry(FirstWins(rows, init), x);
      }
    }
  }

  /** The order of a run with distinct keys does not matter. */
  lemma PermutedRun(a: seq<Cell>, b: seq<Cell>)
    requires DistinctKeys(a) && DistinctKeys(b) && multiset(a) == multiset(b)
    ensures FirstWins(map[], a) == FirstWins(map[], b)
  {
    FirstWinsAll(map[], a);
    FirstWinsAll(map[], b);
    var m, n := FirstWins(map[], a), FirstWins(map[], b);
    assert forall c: Cell :: c in a <==> c in multiset(a);
    assert forall c: Cell :: c in b <==> c in multiset(b);
    forall k: Key ensures k in m <==> k in n {
      assert k in m ==> Entry(m, Cell(k, m[k]));
      assert k in n ==> Entry(n, Cell(k, n[k]));
    }
    forall k: Key | k in m ensures m[k] == n[k] {
      assert Entry(m, Cell(k, m[k]));
    }
  }

  /** The cells of a map in ascending key order. */
  ghost predicate IsListing(cells: seq<Cell>, rows: map<Key, Row>) {
    SortedCells(cells) && forall c: Cell :: c in cells <==> c.key in rows && rows[c.key] == c.row
  }

  lemma HasMember(a: seq<Cell>)
    ensures |a| > 0 ==> exists c: Cell :: c in a
  {
    if |a| > 0 {
      assert a[0] in a;
    }
  }

  lemma HeadsAgree(a: seq<Cell>, b: seq<Cell>)
    requires SortedCells(a) && SortedCells(b) && |a| > 0 && |b| > 0
    requires a[0] in b && b[0] in a
    ensures a[0] == b[0]
  {
    var i :| 0 <= i < |b| && b[i] == a[0];
    var j :| 0 <= j < |a| && a[j] == b[0];
  }

  /** A map has only one listing. */
  lemma {:induction false} ListingUnique(a: seq<Cell>, b: seq<Cell>)
    requires SortedCells(a) && SortedCells(b) && forall c: Cell :: c in a <==> c in b
    ensures a == b
  {
    HasMember(a);
    HasMember(b);
    if |a| > 0 {
      assert a[0] in a && b[0] in b;
      HeadsAgree(a, b);
      forall c: Cell ensures c in a[1..] <==> c in b[1..] {
        TailMembers(a, c);
        TailMembers(b, c);
      }
      ListingUnique(a[1..], b[1..]);
      assert a == [a[0]] + a[1..] && b == [b[0]] + b[1..];
    }
  }

  lemma TailMembers(a: seq<Cell>, c: Cell)
    requires SortedCells(a) && |a| > 0
    ensures c in a[1..] <==> c in a && c != a[0]
  {
    if c in a && c != a[0] {
      var i :| 0 <= i < |a| && a[i] == c;
      assert a[1..][i - 1] == c;
    }
    if c in a[1..] {
      var i :| 0 <= i < |a| - 1 && a[1..][i] == c;
      assert a[i + 1] == c;
    }
  }

  /** A prefix of a run gives no more keys than the run. */
  lemma {:induction false} FirstWinsGrows(rows: map<Key, Row>, run: seq<Cell>, i: nat)
    requires i <= |run|
    ensures |FirstWins(rows, run[..i])| <= |FirstWins(rows, run)|
  {
    if i < |run| {
      var init := run[..|run| - 1];
      FirstWinsGrows(rows, init, i);
      assert run[..i] == init[..i];
    } else {
      assert run[..i] == run;
    }
  }

  /** A run in two parts. */
  lemma {:induction false} FirstWinsTwice(rows: map<Key, Row>, a: seq<Cell>, b: seq<Cell>)
    ensures FirstWins(FirstWins(rows, a), b) == FirstWins(rows, a + b)
  {
    if |b| == 0 {
      assert a + b == a;
    } else {
      FirstWinsTwice(rows, a, b[..|b| - 1]);
      assert (a + b)[..|a + b| - 1] == a + b[..|b| - 1];
    }
  }

  /** Runs with the same cells in another order have the same listing. */
  lemma PermutedListing(a: seq<Cell>, b: seq<Cell>, listA: seq<Cell>, listB: seq<Cell>)
    requires DistinctKeys(a) && DistinctKeys(b) && multiset(a) == multiset(b)
    requires IsListing(listA, FirstWins(map[], a)) && IsListing(listB, FirstWins(map[], b))
    ensures listA == listB
  {
    PermutedRun(a, b);
    ListingUnique(listA, listB);
  }

  /** Below 250 rows per unit of leaf load there is room for any insert. */
  lemma RoomBelow250(t: BPlusTree, key: Key)
    requires t.Valid() && |t.rows| < 250 * t.EffectiveLoads().leaf
    ensures t.RoomFor(key)
  {
    var f, ld := t.State(), t.EffectiveLoads();
    forall p | 0 <= p < |f.nodes| && f.nodes[p].Leaf? && Owns(f, p, key)
      ensures |f.nodes| + LeafNeed(f, ld, p) <= TABLE_MAX_PAGES
    {
      CapacityBound(f, ld, |t.rows|, p);
    }
  }

  lemma FirstWinsNext(rows: map<Key, Row>, run: seq<Cell>, i: nat)
    requires i < |run|
    ensures run[i] in run
    ensures var before := FirstWins(rows, run[..i]);
            FirstWins(rows, run[..i + 1]) == if run[i].key in before then before else before[run[i].key := run[i].row]
  {
    assert run[..i + 1][..i] == run[..i] && run[..i + 1][i] == run[i];
  }

  /** Within the row bound every insert of the run has room. */
  lemma RunRoom(t: BPlusTree, rows: map<Key, Row>, run: seq<Cell>, i: nat)
    requires t.Valid() && i < |run| && t.rows == FirstWins(rows, run[..i])
    ensures |FirstWins(rows, run)| <= 250 * t.EffectiveLoads().leaf ==> t.RoomFor(run[i].key)
  {
    if run[i].key !in t.rows && |FirstWins(rows, run)| <= 250 * t.EffectiveLoads().leaf {
      FirstWinsNext(rows, run, i);
      FirstWinsGrows(rows, run, i + 1);
      RoomBelow250(t, run[i].key);
    }
  }

  /** Whether an insert fits in the page table: one page per full page on the way up, and one for a new root. */
  method HasRoom(t: BPlusTree, key: Key) returns (fits: bool)
    requires t.Valid()
    ensures fits <==> t.RoomFor(key)
    ensures fits <==> key in t.rows
                      || forall p :: 0 <= p < |t.pager.view| && t.pager.view[p].Leaf? && Owns(t.State(), p, key) ==>
                           |t.pager.view| + LeafNeed(t.State(), t.EffectiveLoads(), p) <= 1000
  {
    ghost var f, ld := t.State(), t.EffectiveLoads();
    var loc := t.Find(key);
    if loc.isExist {
      return true;
    }
    OnlyOwner(f, ld, loc.pageId, key);
    assert t.pager.PageIn(loc.pageId) && PageOk(f, Settled, ld, loc.pageId);
    if !t.pager.pages[loc.pageId].IsFull(t.EffectiveLoads().leaf) {
      return true;
    }
    var need := CountClimb(t, loc.pageId);
    fits := |t.pager.pages| + 1 + need <= TABLE_MAX_PAGES;
  }

  /** One page of the way up: a parent with room ends it. */
  lemma ClimbOne(f: Forest, ld: Loads, p: nat)
    requires Inv(f, Settled, ld) && p < |f.nodes| && p != f.root
    ensures var q := f.nodes[p].parent;
            && q < |f.nodes| && f.nodes[q].Inner? && |f.nodes[q].keys| <= ld.inner
            && f.marks[p].level < f.marks[q].level <= f.marks[f.root].level
            && ClimbNeed(f, Settled, ld, p) ==
               if |f.nodes[q].keys| == ld.inner then 1 + ClimbNeed(f, Settled, ld, q) else 0
  {
    ParentLevel(f, Settled, ld, p);
    assert PageOk(f, Settled, ld, f.nodes[p].parent);
  }

  /** Counts the full pages above `c`, and the new root when all are full. */
  method CountClimb(t: BPlusTree, c: nat) returns (need: nat)
    requires t.Valid() && c < |t.pager.view|
    ensures need == ClimbNeed(t.State(), Settled, t.EffectiveLoads(), c)
  {
    ghost var f, ld := t.State(), t.EffectiveLoads();
    need := 0;
    var p: nat := c;
    while p != t.pager.rootPid
      invariant p < |f.nodes| && need + ClimbNeed(f, Settled, ld, p) == ClimbNeed(f, Settled, ld, c)
      decreases f.marks[f.root].level - f.marks[p].level
    {
      ClimbOne(f, ld, p);
      assert t.pager.PageIn(p) && t.pager.PageIn(f.nodes[p].parent);
      var parent := t.pager.pages[p].parent;
      if !t.pager.pages[parent].IsFull(t.EffectiveLoads().inner) {
        return need;
      }
      need := need + 1;
      p := parent;
    }
    need := need + 1;
  }

  method InsertIfRoom(t: BPlusTree, c: Cell) returns (done: bool)
    requires t.Valid() && |c.row| == t.rowSize
    modifies t, t.pager.Repr
    ensures t.Valid() && fresh(t.pager.Repr - old(t.pager.Repr)) && |t.pager.view| >= old(|t.pager.view|)
    ensures done <==> old(t.RoomFor(c.key))
    ensures t.rows == if done && c.key !in old(t.rows) then old(t.rows)[c.key := c.row] else old(t.rows)
    ensures !done ==> !t.RoomFor(c.key)
  {
    done := HasRoom(t, c.key);
    if done {
      var _ := t.Insert(c.key, c.row);
    }
  }

  /**
   * A run stops at the first insert that the page table has no room for; up to there the first row of every key stays.
   */
  method InsertAll(t: BPlusTree, run: seq<Cell>) returns (n: nat)
    requires t.Valid() && forall c :: c in run ==> |c.row| == t.rowSize
    modifies t, t.pager.Repr
    ensures t.Valid() && fresh(t.pager.Repr - old(t.pager.Repr)) && |t.pager.view| >= old(|t.pager.view|)
    ensures n <= |run| && t.rows == FirstWins(old(t.rows), run[..n]) && (n < |run| ==> !t.RoomFor(run[n].key))
    ensures |FirstWins(old(t.rows), run)| <= 250 * t.EffectiveLoads().leaf ==> n == |run|
  {
    n := 0;
    while n < |run|
      invariant n <= |run| && t.Valid() && fresh(t.pager.Repr - old(t.pager.Repr))
                && |t.pager.view| >= old(|t.pager.view|)
      invariant t.rows == FirstWins(old(t.rows), run[..n])
    {
      FirstWinsNext(old(t.rows), run, n);
      RunRoom(t, old(t.rows), run, n);
      var done := InsertIfRoom(t, run[n]);
      if !done {
        return;
      }
      n := n + 1;
    }
    assert run[..n] == run;
  }

  /** A tree built by a run lists exactly the first row of every key, in key order. */
  method BuildAndSelect(rowSize: nat, leafLoad: nat, innerLoad: nat, zeroed: bool, run: seq<Cell>)
      returns (n: nat, cells: seq<Cell>)
    requires GoodLoads(LoadsInForce(rowSize, leafLoad, innerLoad))
    requires forall c :: c in run ==> |c.row| == rowSize
    ensures n <= |run| && IsListing(cells, FirstWins(map[], run[..n]))
    ensures |FirstWins(map[], run)| <= 250 * Min(LeafCapacity(rowSize), leafLoad) ==> n == |run|
  {
    var t := new BPlusTree.Create(rowSize, leafLoad, innerLoad, zeroed);
    n := InsertAll(t, run);
    cells := t.SelectCell(0, UINT32_MAX);
  }

  /** With zeroed memory and a load that a page has room for, the checker accepts every tree built by a run. */
  method BuildAndCheck(rowSize: nat, leafLoad: nat, innerLoad: nat, run: seq<Cell>) returns (outcome: CheckOutcome)
    requires GoodLoads(Loads(Min(LeafCapacity(rowSize), leafLoad), innerLoad))
    requires forall c :: c in run ==> |c.row| == rowSize
    ensures outcome == Verdict(true)
  {
    var t := new BPlusTree.Create(rowSize, leafLoad, innerLoad, true);
    var _ := InsertAll(t, run);
    outcome := CheckZeroed(t);
  }

  /** With zeroed memory and a load that a page has room for, the checker accepts a tree. */
  method CheckZeroed(t: BPlusTree) returns (outcome: CheckOutcome)
    requires t.Valid() && t.pager.zeroed && t.innerLoad <= INNER_CAPACITY
    ensures outcome == Verdict(true)
  {
    t.AllPass();
    outcome := t.CheckValid();
  }

  /** With a load beyond the page capacity the checker throws after every insert that splits an inner page. */
  method InsertAndCheck(t: BPlusTree, key: Key, row: Row, ghost leaf: nat) returns (outcome: CheckOutcome)
    requires t.Valid() && |row| == t.rowSize && t.RoomFor(key) && key !in t.rows && t.innerLoad > INNER_CAPACITY
    requires leaf < |t.pager.view| && t.pager.view[leaf].Leaf? && Owns(t.State(), leaf, key)
    requires CutsInner(t.State(), t.EffectiveLoads(), leaf)
    modifies t, t.pager.Repr
    ensures t.Valid() && t.rows == old(t.rows)[key := row] && outcome.Thrown?
  {
    var status := t.Insert(key, row);
    ghost var r :| t.FreshHalf(r);
    outcome := t.CheckValid();
    t.HalfFails(r);
  }
}
