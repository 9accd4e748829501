/** Leaf and inner nodes kept in a fixed-size page and changed in place (src/core/btree.h). */
module NodePage {
  import opened PageModel
  import PageCodec

  datatype Kind = LeafKind | InnerKind

  /** The page buffer: common header, entry count, and the slots of the two node layouts. */
  class Page {
    var kind: Kind
    var isRoot: bool
    var parent: nat
    var count: nat
    const cells: array<Cell>
    const keys: array<Key>
    const kids: array<nat>

    ghost predicate Valid()
      reads this
    {
      && keys.Length == INNER_CAPACITY
      && kids.Length == INNER_CAPACITY + 1
      && (kind == LeafKind ==> count <= cells.Length)
      && (kind == InnerKind ==> count <= keys.Length)
    }

    /** The two pages occupy different memory. */
    ghost predicate Separate(other: Page) {
      this != other && cells != other.cells && keys != other.keys && kids != other.kids
    }

    function Val(): Node
      requires Valid()
      reads this, cells, keys, kids
    {
      if kind == LeafKind then Leaf(isRoot, parent, cells[..count])
      else Inner(isRoot, parent, keys[..count], kids[..count + 1])
    }

    lemma IsLeaf(cs: seq<Cell>)
      requires Valid() && kind == LeafKind && cells[..count] == cs
      ensures Val() == Leaf(isRoot, parent, cs)
    {
    }

    lemma IsInner(ks: seq<Key>, cs: seq<nat>)
      requires Valid() && kind == InnerKind && keys[..count] == ks && kids[..count + 1] == cs
      ensures Val() == Inner(isRoot, parent, ks, cs)
    {
    }

    /** A fresh page. Its content is arbitrary; only what the reset methods overwrite is fixed here. */
    constructor (rowSize: nat, rootByte: bool, parentBytes: nat)
      ensures Valid() && fresh(cells) && fresh(keys) && fresh(kids)
      ensures cells.Length == LeafCapacity(rowSize)
      ensures isRoot == rootByte && parent == parentBytes
    {
      kind := LeafKind;
      isRoot := rootByte;
      parent := parentBytes;
      count := 0;
      var cs := new Cell[LeafCapacity(rowSize)](_ => Cell(0, []));
      var ks := new Key[INNER_CAPACITY](_ => 0);
      var ps := new nat[INNER_CAPACITY + 1](_ => 0);
      cells, keys, kids := cs, ks, ps;
    }

    /** A page read from its bytes. */
    constructor Load(bytes: seq<Byte>, rowSize: nat, ghost n: Node)
      requires PageCodec.Loadable(bytes, n, rowSize)
      ensures Valid() && Val() == n && fresh(cells) && fresh(keys) && fresh(kids)
      ensures cells.Length == LeafCapacity(rowSize)
    {
      kind := if bytes[0] == PageCodec.NODE_TYPE_LEAF then LeafKind else InnerKind;
      isRoot := bytes[PageCodec.IS_ROOT_OFFSET] != 0;
      parent := PageCodec.Word(bytes, PageCodec.PARENT_OFFSET, CHILD_SIZE);
      count := PageCodec.Count(bytes);
      cells := new Cell[LeafCapacity(rowSize)](i requires 0 <= i => PageCodec.CellSlot(bytes, rowSize, i));
      keys := new Key[INNER_CAPACITY](i requires 0 <= i => PageCodec.KeySlot(bytes, i));
      kids := new nat[INNER_CAPACITY + 1](i requires 0 <= i => PageCodec.ChildSlot(bytes, i));
      new;
      if n.Leaf? {
        assert forall i :: 0 <= i < |n.cells| ==> PageCodec.CellIs(bytes, rowSize, i, n.cells[i]);
        assert cells[..count] == n.cells;
      } else {
        assert forall i :: 0 <= i < |n.keys| ==> PageCodec.KeyIs(bytes, i, n.keys[i]);
        assert forall i :: 0 <= i < |n.kids| ==> PageCodec.KidIs(bytes, i, n.kids[i]);
        assert keys[..count] == n.keys && kids[..count + 1] == n.kids;
      }
    }

    method ResetLeaf()
      requires Valid()
      modifies this
      ensures Valid() && Val() == Leaf(old(isRoot), old(parent), [])
      ensures kind == LeafKind && count == 0 && isRoot == old(isRoot) && parent == old(parent)
    {
      count := 0;
      kind := LeafKind;
    }

    method ResetInner()
      requires Valid()
      modifies this
      ensures Valid() && kind == InnerKind && count == 0 && isRoot == old(isRoot) && parent == old(parent)
    {
      kind := InnerKind;
      count := 0;
    }

    predicate IsFull(load: nat)
      reads this
    {
      count == load
    }

    function GetKey(i: nat): Key
      requires Valid() && i < count
      reads this, cells, keys, kids
      ensures GetKey(i) == NodeKeys(Val())[i]
    {
      if kind == LeafKind then cells[i].key else keys[i]
    }

    /** Binary search for the last key not above `key`; -1 when every key is above it. */
    method SearchKeyPosition(key: Key) returns (pos: int)
      requires Valid() && count > 0 && Sorted(NodeKeys(Val()))
      ensures pos == Slot(NodeKeys(Val()), key) - 1
    {
      ghost var ks := NodeKeys(Val());
      var start, end := 0, count - 1;
      while start <= end
        invariant 0 <= start <= end + 1 <= count
        invariant forall i :: 0 <= i < start ==> ks[i] < key
        invariant forall i :: end < i < count ==> ks[i] > key
      {
        var mid := start + (end - start) / 2;
        var keyMid := GetKey(mid);
        if keyMid == key {
          SlotIs(ks, key, mid + 1);
          return mid;
        } else if keyMid < key {
          start := mid + 1;
        } else {
          end := mid - 1;
        }
      }
      assert start == end + 1;
      SlotIs(ks, key, start);
      return end;
    }

    /** Shifts larger cells up by one and writes the new cell into the gap. */
    method LeafInsert(load: nat, key: Key, row: Row)
      requires Valid() && kind == LeafKind && count < load <= cells.Length
      modifies this`count, cells
      ensures Valid() && kind == LeafKind
      ensures Val() == Leaf(isRoot, parent, CellsWith(old(Val().cells), key, row))
    {
      ghost var o := cells[..count];
      ghost var t := CellsWith(o, key, row);
      ghost var p := CellsWithInserts(o, key, row);
      count := count + 1;
      InsertCell(cells, count - 1, key, row, o, p, t);
    }

    /** Splits a full leaf around the new key: the lower half plus one stays, the rest goes to `right`. */
    method LeafInsertAndSplit(load: nat, key: Key, row: Row, right: Page) returns (pivot: Key)
      requires Valid() && right.Valid() && Separate(right) && right.cells.Length == cells.Length
      requires kind == LeafKind && IsFull(load) && load > 0 && load % 2 == 0
      requires forall j :: 0 <= j < count ==> cells[j].key != key
      modifies this`count, cells, right, right.cells
      ensures Valid() && right.Valid() && kind == right.kind == LeafKind
      ensures right.isRoot == old(right.isRoot) && right.parent == old(right.parent)
      ensures Val() == Leaf(isRoot, parent, CellsWith(old(Val().cells), key, row)[..load / 2 + 1])
      ensures right.Val() == Leaf(right.isRoot, right.parent, CellsWith(old(Val().cells), key, row)[load / 2 + 1..])
      ensures pivot == CellsWith(old(Val().cells), key, row)[load / 2].key
    {
      ghost var o := cells[..count];
      ghost var t := CellsWith(o, key, row);
      ghost var p := CellsWithInserts(o, key, row);
      pivot := MoveUpperCells(key, row, right, load / 2, o, p, t);
    }

    /** The body of the split, against a sequence `t` that holds the cells with the new one inserted. */
    method MoveUpperCells(key: Key, row: Row, right: Page, ghost h: nat, ghost o: seq<Cell>, ghost p: nat,
                          ghost t: seq<Cell>) returns (pivot: Key)
      requires Valid() && right.Valid() && Separate(right) && right.cells.Length == cells.Length
      requires kind == LeafKind && h > 0 && count == 2 * h && o == cells[..count]
      requires forall j :: 0 <= j < count ==> o[j].key != key
      requires IsCellSlot(o, key, p) && IsInsertion(o, p, Cell(key, row), t)
      modifies this`count, cells, right, right.cells
      ensures Valid() && right.Valid() && kind == right.kind == LeafKind
      ensures right.isRoot == old(right.isRoot) && right.parent == old(right.parent)
      ensures Val() == Leaf(isRoot, parent, t[..h + 1])
      ensures right.Val() == Leaf(right.isRoot, right.parent, t[h + 1..])
      ensures pivot == t[h].key
    {
      right.ResetLeaf();
      var n := count;
      right.count := n / 2;
      SplitCells(cells, n / 2, key, row, right.cells, o, p, t);
      pivot := cells[n / 2].key;
      count := n / 2 + 1;
      IsLeaf(t[..h + 1]);
      right.IsLeaf(t[h + 1..]);
    }

    /** Position before which `key` goes, or the position it already occupies. */
    method SearchInsertLocation(key: Key) returns (found: bool, pos: int)
      requires Valid() && kind == InnerKind && count > 0 && Sorted(keys[..count])
      ensures found <==> key !in keys[..count]
      ensures pos == Slot(keys[..count], key) - if found then 0 else 1
      ensures !found ==> 0 <= pos < count && keys[pos] == key
    {
      ghost var ks := keys[..count];
      assert NodeKeys(Val()) == ks;
      pos := SearchKeyPosition(key);
      PredecessorTells(ks, key, pos);
      if pos >= 0 && keys[pos] == key {
        return false, pos;
      }
      return true, pos + 1;
    }

    /** Puts `(key, right)` behind the child `left`; an empty node receives `left` as well. */
    method InnerInsert(load: nat, key: Key, left: nat, right: nat)
      requires Valid() && kind == InnerKind && count < load <= keys.Length
      requires key !in keys[..count] && (count > 0 ==> kids[Slot(keys[..count], key)] == left)
      modifies this`count, keys, kids
      ensures Valid() && kind == InnerKind
      ensures Val() == if old(count) == 0 then Inner(isRoot, parent, [key], [left, right])
                       else Inner(isRoot, parent, KeysWith(old(Val().keys), key),
                         KidsWith(old(Val().keys), old(Val().kids), key, right))
    {
      ghost var ok, oc := keys[..count], kids[..count + 1];
      ghost var p := EntryInserts(ok, oc, key, right);
      ghost var tk, tc := KeysWith(ok, key), KidsWith(ok, oc, key, right);
      var n := count;
      count := count + 1;
      if n == 0 {
        kids[0] := left;
        keys[0] := key;
        kids[1] := right;
        IsInner([key], [left, right]);
      } else {
        assert forall j :: 0 <= j < n ==> ok[j] != key by {
          assert forall j :: 0 <= j < n ==> ok[j] in ok;
        }
        InsertEntry(keys, kids, n, key, left, right, ok, oc, p, tk, tc);
        IsInner(tk, tc);
      }
    }

    /** Splits a full inner node around the new entry; the middle separator moves up and is returned. */
    method InnerInsertAndSplit(load: nat, key: Key, left: nat, right: nat, newPage: Page) returns (pivot: Key)
      requires Valid() && newPage.Valid() && Separate(newPage)
      requires kind == InnerKind && IsFull(load) && load > 0 && load % 2 == 0
      requires Sorted(keys[..count]) && key !in keys[..count] && kids[Slot(keys[..count], key)] == left
      modifies this`count, keys, kids, newPage, newPage.keys, newPage.kids
      ensures Valid() && newPage.Valid() && kind == newPage.kind == InnerKind
      ensures newPage.isRoot == old(newPage.isRoot) && newPage.parent == old(newPage.parent)
      ensures Val() == Inner(isRoot, parent, KeysWith(old(Val().keys), key)[..load / 2],
                             KidsWith(old(Val().keys), old(Val().kids), key, right)[..load / 2 + 1])
      ensures newPage.Val() == Inner(newPage.isRoot, newPage.parent, KeysWith(old(Val().keys), key)[load / 2 + 1..],
                                     KidsWith(old(Val().keys), old(Val().kids), key, right)[load / 2 + 1..])
      ensures pivot == KeysWith(old(Val().keys), key)[load / 2]
    {
      ghost var ok, oc := keys[..count], kids[..count + 1];
      var keyPos := LocateEntry(key, ok, oc, right);
      pivot := MoveUpperHalf(keyPos, key, left, right, newPage, load / 2, ok, oc, KeysWith(ok, key),
        KidsWith(ok, oc, key, right));
    }

    method LocateEntry(key: Key, ghost ok: seq<Key>, ghost oc: seq<nat>, ghost right: nat) returns (keyPos: nat)
      requires Valid() && kind == InnerKind && count > 0 && ok == keys[..count] && oc == kids[..count + 1]
      requires Sorted(ok) && key !in ok
      ensures keyPos == Slot(ok, key) <= count
      ensures IsInsertion(ok, keyPos, key, KeysWith(ok, key))
      ensures IsInsertion(oc, keyPos + 1, right, KidsWith(ok, oc, key, right))
    {
      var success;
      success, keyPos := SearchInsertLocation(key);
      assert success;
      ghost var p := EntryInserts(ok, oc, key, right);
    }

    /** The body of the split, against sequences `tk`, `tc` that hold the entries with the new one inserted. */
    method MoveUpperHalf(keyPos: nat, key: Key, left: nat, right: nat, newPage: Page,
                         ghost h: nat, ghost ok: seq<Key>, ghost oc: seq<nat>, ghost tk: seq<Key>, ghost tc: seq<nat>)
        returns (pivot: Key)
      requires Valid() && newPage.Valid() && Separate(newPage)
      requires kind == InnerKind && h > 0 && count == 2 * h && ok == keys[..count] && oc == kids[..count + 1]
      requires IsInsertion(ok, keyPos, key, tk) && IsInsertion(oc, keyPos + 1, right, tc) && oc[keyPos] == left
      modifies this`count, keys, kids, newPage, newPage.keys, newPage.kids
      ensures Valid() && newPage.Valid() && kind == newPage.kind == InnerKind
      ensures newPage.isRoot == old(newPage.isRoot) && newPage.parent == old(newPage.parent)
      ensures Val() == Inner(isRoot, parent, tk[..h], tc[..h + 1])
      ensures newPage.Val() == Inner(newPage.isRoot, newPage.parent, tk[h + 1..], tc[h + 1..])
      ensures pivot == tk[h]
    {
      newPage.ResetInner();
      var n := count;
      newPage.count := n / 2;
      SplitEntries(keys, kids, n / 2, keyPos, key, left, right, newPage.keys, newPage.kids, ok, oc, tk, tc);
      pivot := keys[n / 2];
      count := n / 2;
      IsInner(tk[..n / 2], tc[..n / 2 + 1]);
      newPage.IsInner(tk[n / 2 + 1..], tc[n / 2 + 1..]);
    }
  }

  /** Entry `i` of a full node moves here to leave a gap at `p`. */
  function Target(i: int, p: nat): int {
    if p <= i then i + 1 else i
  }

  /** Inserts into a buffer of `n` cells by shifting larger cells up, last first. */
  method InsertCell(a: array<Cell>, n: nat, key: Key, row: Row, ghost o: seq<Cell>, ghost p: nat, ghost t: seq<Cell>)
    requires n < a.Length && o == a[..n]
    requires IsCellSlot(o, key, p) && IsInsertion(o, p, Cell(key, row), t)
    modifies a
    ensures a[..n + 1] == t
  {
    assert forall j :: 0 <= j < n ==> a[j] == o[j];
    var i := n;
    while i >= 1 && a[i - 1].key > key
      invariant p <= i <= n
      invariant forall j :: 0 <= j < i ==> a[j] == o[j]
      invariant forall j :: i < j <= n ==> a[j] == t[j]
    {
      a[i] := a[i - 1];
      i := i - 1;
    }
    a[i] := Cell(key, row);
  }

  /** The backward scan for the place of `key` among `n` cells. */
  method ScanSlot(a: array<Cell>, n: nat, key: Key, ghost o: seq<Cell>, ghost p: nat) returns (pos: nat)
    requires n <= a.Length && o == a[..n] && IsCellSlot(o, key, p)
    ensures pos == p
  {
    assert forall j :: 0 <= j < n ==> a[j] == o[j];
    pos := n;
    while pos > 0 && a[pos - 1].key > key
      invariant p <= pos <= n
    {
      pos := pos - 1;
    }
  }

  /** Cells up to `i` are untouched; the others are in place, the upper ones in the new page. */
  ghost predicate CellsPlaced(a: array<Cell>, right: array<Cell>, h: nat, i: int, p: nat, o: seq<Cell>, t: seq<Cell>)
    reads a, right
  {
    && a != right && -1 <= i < |o| == 2 * h <= a.Length && h <= right.Length && |t| == 2 * h + 1 && 0 < h
    && (forall j :: 0 <= j <= i ==> a[j] == o[j])
    && (forall d :: Target(i, p) < d <= h && d != p ==> a[d] == t[d])
    && (forall d :: 0 <= d < h && Target(i, p) < d + h + 1 != p ==> right[d] == t[d + h + 1])
  }

  method MoveCell(a: array<Cell>, right: array<Cell>, h: nat, i: nat, idx: nat,
                  ghost p: nat, ghost o: seq<Cell>, ghost x: Cell, ghost t: seq<Cell>)
    requires CellsPlaced(a, right, h, i, p, o, t) && idx == Target(i, p) && IsInsertion(o, p, x, t)
    modifies a, right
    ensures CellsPlaced(a, right, h, i - 1, p, o, t)
  {
    assert t[idx] == o[i];
    if idx < h + 1 {
      if i != idx {
        a[idx] := a[i];
      }
    } else {
      right[idx - (h + 1)] := a[i];
    }
  }

  /** Moves every cell, last first, to its place around a gap at `p`; the upper half goes to `right`. */
  method SpreadCells(a: array<Cell>, h: nat, p: nat, right: array<Cell>, ghost o: seq<Cell>, ghost x: Cell,
                     ghost t: seq<Cell>)
    requires a != right && 0 < 2 * h <= a.Length && h <= right.Length
    requires o == a[..2 * h] && IsInsertion(o, p, x, t)
    modifies a, right
    ensures CellsPlaced(a, right, h, -1, p, o, t)
  {
    assert forall j :: 0 <= j < 2 * h ==> a[j] == o[j];
    var i := 2 * h - 1;
    while i >= 0
      invariant CellsPlaced(a, right, h, i, p, o, t)
    {
      MoveCell(a, right, h, i, Target(i, p), p, o, x, t);
      i := i - 1;
    }
  }

  /** Inserts into a full buffer of `2 * h` cells; the upper half ends up in `right`. */
  method SplitCells(a: array<Cell>, h: nat, key: Key, row: Row, right: array<Cell>, ghost o: seq<Cell>, ghost p: nat,
                    ghost t: seq<Cell>)
    requires a != right && 0 < 2 * h <= a.Length && h <= right.Length
    requires o == a[..2 * h] && forall j :: 0 <= j < 2 * h ==> o[j].key != key
    requires IsCellSlot(o, key, p) && IsInsertion(o, p, Cell(key, row), t)
    modifies a, right
    ensures a[..h + 1] == t[..h + 1] && right[..h] == t[h + 1..] && a[h] == t[h]
  {
    var keyPos := ScanSlot(a, 2 * h, key, o, p);
    assert (keyPos == 0 && key < o[0].key) || (keyPos > 0 && o[keyPos - 1].key < key);
    var leftLoad := h + 1;
    SpreadCells(a, h, keyPos, right, o, Cell(key, row), t);
    if keyPos < leftLoad {
      a[keyPos] := Cell(key, row);
    } else {
      right[keyPos - leftLoad] := Cell(key, row);
    }
  }

  /** A key is in a sorted sequence exactly if it is at its predecessor position. */
  lemma PredecessorTells(ks: seq<Key>, key: Key, pos: int)
    requires Sorted(ks) && pos == Slot(ks, key) - 1
    ensures -1 <= pos < |ks| && (key in ks <==> pos >= 0 && ks[pos] == key)
  {
    SlotSplits(ks, key);
    if key in ks {
      var i :| 0 <= i < |ks| && ks[i] == key;
      assert i <= pos;
    }
  }

  /** Entries up to `i` are untouched, those above have moved up by one. */
  ghost predicate EntriesShifted(keys: array<Key>, kids: array<nat>, n: nat, i: int, p: nat,
                                 ok: seq<Key>, oc: seq<nat>, tk: seq<Key>, tc: seq<nat>)
    reads keys, kids
  {
    && p - 1 <= i < n < keys.Length && kids.Length == keys.Length + 1
    && |ok| == n && |oc| == n + 1 && |tk| == n + 1 && |tc| == n + 2
    && (forall j :: 0 <= j <= i ==> keys[j] == ok[j])
    && (forall j :: 0 <= j <= i + 1 ==> kids[j] == oc[j])
    && (forall j :: i + 1 < j <= n ==> keys[j] == tk[j])
    && (forall j :: i + 2 < j <= n + 1 ==> kids[j] == tc[j])
  }

  method ShiftEntry(keys: array<Key>, kids: array<nat>, n: nat, i: int, key: Key, right: nat, ghost p: nat,
                    ghost ok: seq<Key>, ghost oc: seq<nat>, ghost tk: seq<Key>, ghost tc: seq<nat>)
    requires p <= i && EntriesShifted(keys, kids, n, i, p, ok, oc, tk, tc)
    requires IsInsertion(ok, p, key, tk) && IsInsertion(oc, p + 1, right, tc)
    modifies keys, kids
    ensures EntriesShifted(keys, kids, n, i - 1, p, ok, oc, tk, tc)
  {
    assert tk[i + 1] == ok[i] && tc[i + 2] == oc[i + 1];
    keys[i + 1] := keys[i];
    kids[i + 2] := kids[i + 1];
  }

  /** Inserts `(key, right)` behind `left` by shifting larger entries up, last first. */
  method InsertEntry(keys: array<Key>, kids: array<nat>, n: nat, key: Key, left: nat, right: nat,
                     ghost ok: seq<Key>, ghost oc: seq<nat>, ghost p: nat, ghost tk: seq<Key>, ghost tc: seq<nat>)
    requires 0 < n < keys.Length && kids.Length == keys.Length + 1 && ok == keys[..n] && oc == kids[..n + 1]
    requires IsSlot(ok, key, p) && oc[p] == left && forall j :: 0 <= j < n ==> ok[j] != key
    requires IsInsertion(ok, p, key, tk) && IsInsertion(oc, p + 1, right, tc)
    modifies keys, kids
    ensures keys[..n + 1] == tk && kids[..n + 2] == tc
  {
    assert forall j :: 0 <= j < n ==> keys[j] == ok[j];
    assert forall j :: 0 <= j <= n ==> kids[j] == oc[j];
    var i := n - 1;
    while i >= 0 && keys[i] >= key
      invariant EntriesShifted(keys, kids, n, i, p, ok, oc, tk, tc)
    {
      assert keys[i] != key;
      ShiftEntry(keys, kids, n, i, key, right, p, ok, oc, tk, tc);
      i := i - 1;
    }
    assert i == p - 1;
    PutEntry(keys, kids, n, i, key, right, p, ok, oc, tk, tc);
    assert kids[i + 1] == left;
  }

  /** The new entry goes into the gap. */
  method PutEntry(keys: array<Key>, kids: array<nat>, n: nat, i: int, key: Key, right: nat, ghost p: nat,
                  ghost ok: seq<Key>, ghost oc: seq<nat>, ghost tk: seq<Key>, ghost tc: seq<nat>)
    requires i == p - 1 && EntriesShifted(keys, kids, n, i, p, ok, oc, tk, tc)
    requires IsInsertion(ok, p, key, tk) && IsInsertion(oc, p + 1, right, tc)
    modifies keys, kids
    ensures keys[..n + 1] == tk && kids[..n + 2] == tc && kids[p] == oc[p]
  {
    keys[i + 1] := key;
    kids[i + 2] := right;
  }

  /** Separators below `i` are untouched; those from `i` on are in place, the upper ones in the new node. */
  ghost predicate KeysPlaced(keys: array<Key>, rkeys: array<Key>, h: nat, i: int, p: nat, ok: seq<Key>, tk: seq<Key>)
    reads keys, rkeys
  {
    && keys != rkeys && -1 <= i < |ok| == 2 * h <= keys.Length && h <= rkeys.Length && |tk| == 2 * h + 1 && 0 < h
    && (forall j :: 0 <= j <= i ==> keys[j] == ok[j])
    && (forall d :: Target(i, p) < d <= h && d != p ==> keys[d] == tk[d])
    && (forall d :: 0 <= d < h && Target(i, p) < d + h + 1 != p ==> rkeys[d] == tk[d + h + 1])
  }

  ghost predicate KidsPlaced(kids: array<nat>, rkids: array<nat>, h: nat, i: int, p: nat, oc: seq<nat>, tc: seq<nat>)
    reads kids, rkids
  {
    && kids != rkids && -1 <= i && i + 1 < |oc| == 2 * h + 1 <= kids.Length && h < rkids.Length && |tc| == 2 * h + 2
    && 0 < h
    && (forall j :: 0 <= j <= i + 1 ==> kids[j] == oc[j])
    && (forall d :: Target(i, p) + 1 < d <= h && d != p + 1 ==> kids[d] == tc[d])
    && (forall d :: 0 <= d <= h && Target(i, p) < d + h != p ==> rkids[d] == tc[d + h + 1])
  }

  method MoveKey(keys: array<Key>, rkeys: array<Key>, h: nat, i: nat, idx: nat, ghost p: nat, ghost ok: seq<Key>,
                 ghost key: Key, ghost tk: seq<Key>)
    requires KeysPlaced(keys, rkeys, h, i, p, ok, tk) && idx == Target(i, p) && IsInsertion(ok, p, key, tk)
    modifies keys, rkeys
    ensures KeysPlaced(keys, rkeys, h, i - 1, p, ok, tk)
  {
    assert tk[idx] == ok[i];
    if idx < h + 1 {
      if i != idx {
        keys[idx] := keys[i];
      }
    } else {
      rkeys[idx - (h + 1)] := keys[i];
    }
  }

  /** The child right of the middle separator becomes the first child of the new node. */
  method MoveKid(kids: array<nat>, rkids: array<nat>, h: nat, i: nat, idx: nat, ghost p: nat, ghost oc: seq<nat>,
                 ghost right: nat, ghost tc: seq<nat>)
    requires KidsPlaced(kids, rkids, h, i, p, oc, tc) && idx == Target(i, p) && IsInsertion(oc, p + 1, right, tc)
    modifies kids, rkids
    ensures KidsPlaced(kids, rkids, h, i - 1, p, oc, tc)
  {
    assert tc[idx + 1] == oc[i + 1];
    if idx == h {
      rkids[0] := kids[i + 1];
    } else if idx < h + 1 {
      if i != idx {
        kids[idx + 1] := kids[i + 1];
      }
    } else {
      rkids[idx - (h + 1) + 1] := kids[i + 1];
    }
  }

  /** Moves one separator with its right child. */
  method MoveEntry(keys: array<Key>, kids: array<nat>, h: nat, i: nat, rkeys: array<Key>, rkids: array<nat>, p: nat,
                   ghost key: Key, ghost right: nat,
                   ghost ok: seq<Key>, ghost oc: seq<nat>, ghost tk: seq<Key>, ghost tc: seq<nat>)
    requires KeysPlaced(keys, rkeys, h, i, p, ok, tk) && KidsPlaced(kids, rkids, h, i, p, oc, tc)
    requires IsInsertion(ok, p, key, tk) && IsInsertion(oc, p + 1, right, tc)
    modifies keys, kids, rkeys, rkids
    ensures KeysPlaced(keys, rkeys, h, i - 1, p, ok, tk) && KidsPlaced(kids, rkids, h, i - 1, p, oc, tc)
  {
    var idx := Target(i, p);
    MoveKey(keys, rkeys, h, i, idx, p, ok, key, tk);
    MoveKid(kids, rkids, h, i, idx, p, oc, right, tc);
  }

  /** Moves every separator with its right child, last first, to its place around a gap at `p`. */
  method SpreadEntries(keys: array<Key>, kids: array<nat>, h: nat, p: nat, ghost key: Key, ghost right: nat,
                       rkeys: array<Key>, rkids: array<nat>,
                       ghost ok: seq<Key>, ghost oc: seq<nat>, ghost tk: seq<Key>, ghost tc: seq<nat>)
    requires keys != rkeys && kids != rkids && rkids.Length == rkeys.Length + 1 && kids.Length == keys.Length + 1
    requires 0 < 2 * h <= keys.Length && h <= rkeys.Length && ok == keys[..2 * h] && oc == kids[..2 * h + 1]
    requires IsInsertion(ok, p, key, tk) && IsInsertion(oc, p + 1, right, tc)
    modifies keys, kids, rkeys, rkids
    ensures KeysPlaced(keys, rkeys, h, -1, p, ok, tk) && KidsPlaced(kids, rkids, h, -1, p, oc, tc)
  {
    assert forall j :: 0 <= j < 2 * h ==> keys[j] == ok[j];
    assert forall j :: 0 <= j <= 2 * h ==> kids[j] == oc[j];
    var i := 2 * h - 1;
    while i >= 0
      invariant KeysPlaced(keys, rkeys, h, i, p, ok, tk)
      invariant KidsPlaced(kids, rkids, h, i, p, oc, tc)
    {
      MoveEntry(keys, kids, h, i, rkeys, rkids, p, key, right, ok, oc, tk, tc);
      i := i - 1;
    }
  }

  /**
   * Inserts `(key, right)` behind `left` into `2 * h` full entries; what lies above the middle separator ends up in
   * `rkeys`, `rkids`.
   */
  method SplitEntries(keys: array<Key>, kids: array<nat>, h: nat, keyPos: nat, key: Key, left: nat, right: nat,
                      rkeys: array<Key>, rkids: array<nat>,
                      ghost ok: seq<Key>, ghost oc: seq<nat>, ghost tk: seq<Key>, ghost tc: seq<nat>)
    requires keys != rkeys && kids != rkids && rkids.Length == rkeys.Length + 1 && kids.Length == keys.Length + 1
    requires 0 < 2 * h <= keys.Length && h <= rkeys.Length && ok == keys[..2 * h] && oc == kids[..2 * h + 1]
    requires IsInsertion(ok, keyPos, key, tk) && IsInsertion(oc, keyPos + 1, right, tc) && oc[keyPos] == left
    modifies keys, kids, rkeys, rkids
    ensures keys[..h] == tk[..h] && kids[..h + 1] == tc[..h + 1] && keys[h] == tk[h]
    ensures rkeys[..h] == tk[h + 1..] && rkids[..h + 1] == tc[h + 1..]
  {
    SpreadEntries(keys, kids, h, keyPos, key, right, rkeys, rkids, ok, oc, tk, tc);
    PutKey(keys, rkeys, h, keyPos, key, ok, tk);
    PutKid(kids, rkids, h, keyPos, left, right, oc, tc);
  }

  /** The new separator goes into the gap of the half it belongs to. */
  method PutKey(keys: array<Key>, rkeys: array<Key>, h: nat, keyPos: nat, key: Key, ghost ok: seq<Key>,
                ghost tk: seq<Key>)
    requires KeysPlaced(keys, rkeys, h, -1, keyPos, ok, tk) && IsInsertion(ok, keyPos, key, tk)
    modifies keys, rkeys
    ensures keys[..h] == tk[..h] && keys[h] == tk[h] && rkeys[..h] == tk[h + 1..]
  {
    var leftLoad := h + 1;
    if keyPos < leftLoad {
      keys[keyPos] := key;
    } else {
      rkeys[keyPos - leftLoad] := key;
    }
  }

  /** The new child goes behind `left`; behind the middle separator it is the first child of the new node. */
  method PutKid(kids: array<nat>, rkids: array<nat>, h: nat, keyPos: nat, left: nat, right: nat, ghost oc: seq<nat>,
                ghost tc: seq<nat>)
    requires KidsPlaced(kids, rkids, h, -1, keyPos, oc, tc) && IsInsertion(oc, keyPos + 1, right, tc)
             && oc[keyPos] == left
    modifies kids, rkids
    ensures kids[..h + 1] == tc[..h + 1] && rkids[..h + 1] == tc[h + 1..]
  {
    var leftLoad, pivotPos := h + 1, h;
    assert kids[0] == tc[0] && tc[keyPos] == left;
    if keyPos < leftLoad {
      assert kids[keyPos] == left;
      if keyPos == pivotPos {
        rkids[0] := right;
      } else {
        kids[keyPos + 1] := right;
      }
      assert kids[keyPos] == left;
    } else {
      rkids[keyPos - leftLoad + 1] := right;
      assert rkids[keyPos - leftLoad] == left;
    }
  }
}
