/** Sizes, keys, cells and the abstract value of a tree page. */
module PageModel {
  const PAGE_SIZE: nat := 4096
  const TABLE_MAX_PAGES: nat := 1000
  const UINT32_MAX: nat := 0xFFFF_FFFF
  const NODE_PARENT_INVALID: nat := 0xFFFF_FFFF_FFFF_FFFF

  const LEAF_NODE_HEADER_SIZE: nat := 18
  const INTERNAL_NODE_HEADER_SIZE: nat := 14
  const KEY_SIZE: nat := 4
  const CHILD_SIZE: nat := 8

  /** Number of keys an inner page has room for, rounded down to even. */
  const INNER_CAPACITY: nat := 338

  type Key = k: int | 0 <= k <= UINT32_MAX
  type Byte = b: int | 0 <= b < 256
  type Row = seq<Byte>

  datatype Cell = Cell(key: Key, row: Row)

  /** What a page stores. The children of an inner page are page ids. */
  datatype Node =
    | Leaf(isRoot: bool, parent: nat, cells: seq<Cell>)
    | Inner(isRoot: bool, parent: nat, keys: seq<Key>, kids: seq<nat>)

  function Even(n: nat): nat {
    n - n % 2
  }

  /** Number of cells a leaf page has room for, rounded down to even. */
  function LeafCapacity(rowSize: nat): nat {
    Even((PAGE_SIZE - LEAF_NODE_HEADER_SIZE) / (KEY_SIZE + rowSize))
  }

  function Min(a: nat, b: nat): nat {
    if a < b then a else b
  }

  function KeysOf(cells: seq<Cell>): (keys: seq<Key>)
    ensures |keys| == |cells|
    ensures forall i :: 0 <= i < |cells| ==> keys[i] == cells[i].key
  {
    if |cells| == 0 then [] else KeysOf(cells[..|cells| - 1]) + [cells[|cells| - 1].key]
  }

  function NodeKeys(n: Node): seq<Key> {
    if n.Leaf? then KeysOf(n.cells) else n.keys
  }

  function WithParent(n: Node, parent: nat): Node {
    match n
    case Leaf(r, _, cells) => Leaf(r, parent, cells)
    case Inner(r, _, keys, kids) => Inner(r, parent, keys, kids)
  }

  function WithRoot(n: Node, isRoot: bool): Node {
    match n
    case Leaf(_, p, cells) => Leaf(isRoot, p, cells)
    case Inner(_, p, keys, kids) => Inner(isRoot, p, keys, kids)
  }

  predicate Sorted(keys: seq<Key>) {
    forall i, j :: 0 <= i < j < |keys| ==> keys[i] < keys[j]
  }

  predicate SortedCells(cells: seq<Cell>) {
    forall i, j :: 0 <= i < j < |cells| ==> cells[i].key < cells[j].key
  }

  /** `t` is `s` with `x` put in at position `p`. */
  ghost predicate IsInsertion<T>(s: seq<T>, p: nat, x: T, t: seq<T>) {
    && |t| == |s| + 1 && p <= |s| && t[p] == x
    && (forall j :: 0 <= j < p ==> t[j] == s[j])
    && (forall j :: p < j <= |s| ==> t[j] == s[j - 1])
  }

  /** Where a backward scan for the first key not above `key` puts a new entry. */
  function Slot(keys: seq<Key>, key: Key): (r: nat)
    ensures r <= |keys|
    ensures forall i :: r <= i < |keys| ==> keys[i] > key
    ensures r > 0 ==> keys[r - 1] <= key
  {
    if |keys| == 0 || keys[|keys| - 1] <= key then |keys| else Slot(keys[..|keys| - 1], key)
  }

  /** The slot is the only position with nothing above the key before it and only larger keys after. */
  lemma SlotIs(keys: seq<Key>, key: Key, r: nat)
    requires r <= |keys|
    requires forall i :: r <= i < |keys| ==> keys[i] > key
    requires r > 0 ==> keys[r - 1] <= key
    ensures r == Slot(keys, key)
  {
  }

  /** `p` is where a backward scan over the cells puts `key`. */
  ghost predicate IsCellSlot(cells: seq<Cell>, key: Key, p: nat) {
    && p <= |cells|
    && (forall i :: p <= i < |cells| ==> cells[i].key > key)
    && (p > 0 ==> cells[p - 1].key <= key)
  }

  /** The cells of a leaf after inserting `(key, row)` behind the last cell not above it. */
  function CellsWith(cells: seq<Cell>, key: Key, row: Row): (r: seq<Cell>)
    ensures |r| == |cells| + 1
  {
    if |cells| == 0 || cells[|cells| - 1].key <= key then cells + [Cell(key, row)]
    else CellsWith(cells[..|cells| - 1], key, row) + [cells[|cells| - 1]]
  }

  lemma CellsWithInserts(cells: seq<Cell>, key: Key, row: Row) returns (p: nat)
    ensures IsCellSlot(cells, key, p)
    ensures IsInsertion(cells, p, Cell(key, row), CellsWith(cells, key, row))
  {
    if |cells| == 0 || cells[|cells| - 1].key <= key {
      p := |cells|;
    } else {
      p := CellsWithInserts(cells[..|cells| - 1], key, row);
    }
  }

  /** `p` is where a backward scan over the separators puts `key`. */
  ghost predicate IsSlot(keys: seq<Key>, key: Key, p: nat) {
    && p <= |keys|
    && (forall i :: p <= i < |keys| ==> keys[i] > key)
    && (p > 0 ==> keys[p - 1] <= key)
  }

  /** The separators of an inner node after inserting `key`. */
  function KeysWith(keys: seq<Key>, key: Key): (r: seq<Key>)
    ensures |r| == |keys| + 1
  {
    if |keys| == 0 || keys[|keys| - 1] <= key then keys + [key]
    else KeysWith(keys[..|keys| - 1], key) + [keys[|keys| - 1]]
  }

  /**
   * The children of an inner node after inserting `(key, right)`: `right` goes directly behind the child at the slot of
   * `key`.
   */
  function KidsWith(keys: seq<Key>, kids: seq<nat>, key: Key, right: nat): (r: seq<nat>)
    requires |kids| == |keys| + 1
    ensures |r| == |kids| + 1
  {
    if |keys| == 0 || keys[|keys| - 1] <= key then kids + [right]
    else KidsWith(keys[..|keys| - 1], kids[..|keys|], key, right) + [kids[|keys|]]
  }

  lemma EntryInserts(keys: seq<Key>, kids: seq<nat>, key: Key, right: nat) returns (p: nat)
    requires |kids| == |keys| + 1
    ensures IsSlot(keys, key, p) && p == Slot(keys, key)
    ensures IsInsertion(keys, p, key, KeysWith(keys, key))
    ensures IsInsertion(kids, p + 1, right, KidsWith(keys, kids, key, right))
  {
    if |keys| == 0 || keys[|keys| - 1] <= key {
      p := |keys|;
    } else {
      p := EntryInserts(keys[..|keys| - 1], kids[..|keys|], key, right);
    }
  }

  /** In a sorted sequence the slot is the number of keys not above `key`. */
  lemma SlotSplits(keys: seq<Key>, key: Key)
    requires Sorted(keys)
    ensures forall i :: 0 <= i < Slot(keys, key) ==> keys[i] <= key
    ensures forall i :: Slot(keys, key) <= i < |keys| ==> keys[i] > key
  {
  }

  lemma CellSlotSplits(cells: seq<Cell>, keys: seq<Key>, key: Key, s: nat)
    requires SortedCells(cells) && |keys| == |cells| && forall i :: 0 <= i < |cells| ==> keys[i] == cells[i].key
    requires s == Slot(keys, key)
    ensures s <= |cells|
    ensures forall i :: 0 <= i < s ==> cells[i].key <= key
    ensures forall i :: s <= i < |cells| ==> cells[i].key > key
  {
    if s > 0 {
      assert keys[s - 1] == cells[s - 1].key;
    }
    forall i | s <= i < |cells| ensures cells[i].key > key {
      assert keys[i] == cells[i].key;
    }
  }

  lemma MulStep(a: int, h: nat)
    ensures (a + 1) * h == a * h + h
  {
  }

  lemma MulMono(a: int, b: int, h: nat)
    requires a <= b
    ensures a * h <= b * h
  {
    assert (b - a) * h >= 0;
  }

  /** The quotient is the number that leaves a remainder below the divisor. */
  lemma DivIs(n: nat, d: nat, q: nat, r: nat)
    requires d > 0
    ensures n == q * d + r && r < d ==> n / d == q && n % d == r
    ensures n == n / d * d + n % d
  {
    if n == q * d + r && r < d {
      if n / d < q {
        MulMono(n / d + 1, q, d);
        MulStep(n / d, d);
      } else if q < n / d {
        MulMono(q + 1, n / d, d);
        MulStep(q, d);
      }
    }
  }

  /** Behind the header a page has 4078 bytes for cells; the capacity is the largest even number of cells that fits. */
  lemma LeafCapacityFills(rowSize: nat)
    ensures LeafCapacity(rowSize) % 2 == 0
    ensures LeafCapacity(rowSize) * (4 + rowSize) <= 4078 < (LeafCapacity(rowSize) + 2) * (4 + rowSize)
  {
    var w, c := 4 + rowSize, LeafCapacity(rowSize);
    var m := 4078 / w;
    DivIs(4078, w, 0, 0);
    MulStep(m, w);
    MulMono(c, m, w);
    MulMono(m + 1, c + 2, w);
  }

  /** No other even number of cells fills a leaf. */
  lemma LeafCapacityIs(rowSize: nat, n: nat)
    requires n % 2 == 0 && n * (4 + rowSize) <= 4078 < (n + 2) * (4 + rowSize)
    ensures n == LeafCapacity(rowSize)
  {
    var w, c := 4 + rowSize, LeafCapacity(rowSize);
    LeafCapacityFills(rowSize);
    if n < c {
      MulMono(n + 2, c, w);
    } else if c < n {
      MulMono(c + 2, n, w);
    }
  }
}
