/** The byte layout of a page: where the header fields, cells, separators and children lie (src/core/btree.h). */
module PageCodec {
  import opened PageModel
  import opened Disk

  const IS_ROOT_OFFSET: nat := 1
  const PARENT_OFFSET: nat := 2
  const COUNT_OFFSET: nat := 10
  const ROW_SIZE_OFFSET: nat := 14
  const NODE_TYPE_INNER: Byte := 0
  const NODE_TYPE_LEAF: Byte := 1

  function CellStart(rowSize: nat, i: nat): nat {
    LEAF_NODE_HEADER_SIZE + i * (KEY_SIZE + rowSize)
  }

  function ChildStart(i: nat): nat {
    INTERNAL_NODE_HEADER_SIZE + i * (CHILD_SIZE + KEY_SIZE)
  }

  /** Slots of different entries, and the two slots of one entry, do not overlap. */
  lemma SlotsApart(i: nat, k: nat)
    ensures ChildStart(i) + CHILD_SIZE == KeyStart(i) && KeyStart(i) + KEY_SIZE == ChildStart(i + 1)
    ensures i < k ==> ChildStart(i + 1) <= ChildStart(k)
    ensures k < i ==> ChildStart(k + 1) <= ChildStart(i)
  {
    MulStep(i, CHILD_SIZE + KEY_SIZE);
    MulStep(k, CHILD_SIZE + KEY_SIZE);
    if i < k {
      MulMono(i + 1, k, CHILD_SIZE + KEY_SIZE);
    } else if k < i {
      MulMono(k + 1, i, CHILD_SIZE + KEY_SIZE);
    }
  }

  function KeyStart(i: nat): nat {
    ChildStart(i) + CHILD_SIZE
  }

  function Word(bytes: seq<Byte>, offset: nat, size: nat): nat
    requires offset + size <= |bytes|
  {
    Decode(bytes[offset..offset + size])
  }

  lemma Limit4()
    ensures Limit(4) == UINT32_MAX + 1
  {
    assert Limit(2) == 65536;
    assert Limit(3) == 256 * Limit(2);
  }

  function KeyAt(bytes: seq<Byte>, offset: nat): Key
    requires offset + KEY_SIZE <= |bytes|
  {
    Limit4();
    Word(bytes, offset, KEY_SIZE)
  }

  function Count(bytes: seq<Byte>): nat
    requires |bytes| == PAGE_SIZE
  {
    Word(bytes, COUNT_OFFSET, 4)
  }

  function RowSize(bytes: seq<Byte>): nat
    requires |bytes| == PAGE_SIZE
  {
    Word(bytes, ROW_SIZE_OFFSET, 4)
  }

  function CellAt(bytes: seq<Byte>, rowSize: nat, i: nat): Cell
    requires CellStart(rowSize, i + 1) <= |bytes|
  {
    var s := CellStart(rowSize, i);
    assert CellStart(rowSize, i + 1) == s + KEY_SIZE + rowSize;
    Cell(KeyAt(bytes, s), bytes[s + KEY_SIZE..s + KEY_SIZE + rowSize])
  }

  lemma CellFits(rowSize: nat, i: nat, n: nat)
    requires i < n
    ensures CellStart(rowSize, i) + KEY_SIZE + rowSize == CellStart(rowSize, i + 1) <= CellStart(rowSize, n)
  {
    MulStep(i, KEY_SIZE + rowSize);
    MulMono(i + 1, n, KEY_SIZE + rowSize);
  }

  /** Bytes outside a written region read as before. */
  lemma WordElsewhere(bytes: seq<Byte>, at: nat, src: seq<Byte>, offset: nat, size: nat)
    requires at + |src| <= |bytes| && offset + size <= |bytes| && (offset + size <= at || at + |src| <= offset)
    ensures |Overwrite(bytes, at, src)| == |bytes|
    ensures Overwrite(bytes, at, src)[offset..offset + size] == bytes[offset..offset + size]
  {
  }

  /** A number written to its slot reads back. */
  lemma WordWritten(bytes: seq<Byte>, at: nat, src: seq<Byte>)
    requires at + |src| <= |bytes|
    ensures |Overwrite(bytes, at, src)| == |bytes|
    ensures Word(Overwrite(bytes, at, src), at, |src|) == Decode(src)
  {
    var b := Overwrite(bytes, at, src);
    assert b[at..at + |src|] == src;
  }

  /** Separator slot `i` of `b` holds `key`. */
  ghost predicate KeyIs(b: seq<Byte>, i: nat, key: Key) {
    KeyStart(i) + KEY_SIZE <= |b| && KeyAt(b, KeyStart(i)) == key
  }

  /** Child slot `i` of `b` holds `child`. */
  ghost predicate KidIs(b: seq<Byte>, i: nat, child: nat) {
    ChildStart(i) + CHILD_SIZE <= |b| && Word(b, ChildStart(i), CHILD_SIZE) == child
  }

  ghost predicate KeysAre(b: seq<Byte>, keys: seq<Key>) {
    forall i :: 0 <= i < |keys| ==> KeyIs(b, i, keys[i])
  }

  ghost predicate KidsAre(b: seq<Byte>, kids: seq<nat>) {
    forall i :: 0 <= i < |kids| ==> KidIs(b, i, kids[i])
  }

  /** A write that leaves a slot's bytes alone leaves its value alone. */
  lemma KeyElsewhere(bytes: seq<Byte>, at: nat, src: seq<Byte>, i: nat, key: Key)
    requires KeyIs(bytes, i, key) && at + |src| <= |bytes|
             && (KeyStart(i) + KEY_SIZE <= at || at + |src| <= KeyStart(i))
    ensures KeyIs(Overwrite(bytes, at, src), i, key)
  {
    WordElsewhere(bytes, at, src, KeyStart(i), KEY_SIZE);
  }

  lemma KidElsewhere(bytes: seq<Byte>, at: nat, src: seq<Byte>, i: nat, child: nat)
    requires KidIs(bytes, i, child) && at + |src| <= |bytes|
             && (ChildStart(i) + CHILD_SIZE <= at || at + |src| <= ChildStart(i))
    ensures KidIs(Overwrite(bytes, at, src), i, child)
  {
    WordElsewhere(bytes, at, src, ChildStart(i), CHILD_SIZE);
  }

  /** A write of `len` bytes at `at` misses a slot. */
  predicate Clear(at: nat, len: nat, slot: nat, size: nat) {
    slot + size <= at || at + len <= slot
  }

  /** A write of `len` bytes at `at` misses every separator slot but possibly `k`. */
  ghost predicate MissesKeys(at: nat, len: nat, k: nat) {
    forall i: nat :: i != k ==> Clear(at, len, KeyStart(i), KEY_SIZE)
  }

  ghost predicate MissesKids(at: nat, len: nat, k: nat) {
    forall i: nat :: i != k ==> Clear(at, len, ChildStart(i), CHILD_SIZE)
  }

  lemma KeySlotMisses(k: nat, n: nat)
    requires k < n
    ensures KeyStart(k) + KEY_SIZE <= ChildStart(n) && MissesKeys(KeyStart(k), KEY_SIZE, k)
            && MissesKids(KeyStart(k), KEY_SIZE, n + 1)
  {
    SlotsApart(k, n);
    forall i: nat | i != k ensures Clear(KeyStart(k), KEY_SIZE, KeyStart(i), KEY_SIZE) {
      SlotsApart(i, k);
      SlotsApart(k, i);
    }
    forall i: nat | i != n + 1 ensures Clear(KeyStart(k), KEY_SIZE, ChildStart(i), CHILD_SIZE) {
      SlotsApart(i, k);
      SlotsApart(k, i);
    }
  }

  lemma ChildSlotMisses(k: nat, n: nat)
    requires k <= n
    ensures ChildStart(k) <= ChildStart(n) && MissesKids(ChildStart(k), CHILD_SIZE, k)
            && MissesKeys(ChildStart(k), CHILD_SIZE, n)
  {
    SlotsApart(k, n);
    forall i: nat | i != n ensures Clear(ChildStart(k), CHILD_SIZE, KeyStart(i), KEY_SIZE) {
      SlotsApart(i, k);
      SlotsApart(k, i);
    }
    forall i: nat | i != k ensures Clear(ChildStart(k), CHILD_SIZE, ChildStart(i), CHILD_SIZE) {
      SlotsApart(i, k);
      SlotsApart(k, i);
    }
  }

  /** Writing the slot of separator `k` changes that separator and nothing else. */
  lemma WriteKeySlot(bytes: seq<Byte>, b: seq<Byte>, keys: seq<Key>, kids: seq<nat>, k: nat, src: seq<Byte>, key: Key)
    requires k < |keys| && |kids| == |keys| + 1 && KeysAre(bytes, keys) && KidsAre(bytes, kids)
    requires |src| == KEY_SIZE && b == Overwrite(bytes, KeyStart(k), src) && Decode(src) == key
    ensures |b| == |bytes| && KeysAre(b, keys[k := key]) && KidsAre(b, kids)
  {
    KeySlotMisses(k, |keys|);
    assert KeyIs(bytes, k, keys[k]);
    WordWritten(bytes, KeyStart(k), src);
    var now := keys[k := key];
    forall i | 0 <= i < |now| ensures KeyIs(b, i, now[i]) {
      if i != k {
        KeyElsewhere(bytes, KeyStart(k), src, i, keys[i]);
      }
    }
    forall i | 0 <= i < |kids| ensures KidIs(b, i, kids[i]) {
      KidElsewhere(bytes, KeyStart(k), src, i, kids[i]);
    }
  }

  /** Writing the slot of child `k` changes that child and nothing else. */
  lemma WriteChildSlot(bytes: seq<Byte>, b: seq<Byte>, keys: seq<Key>, kids: seq<nat>, k: nat, src: seq<Byte>,
                       child: nat)
    requires k <= |keys| && |kids| == |keys| + 1 && KeysAre(bytes, keys) && KidsAre(bytes, kids)
    requires |src| == CHILD_SIZE && b == Overwrite(bytes, ChildStart(k), src) && Decode(src) == child
    ensures |b| == |bytes| && KeysAre(b, keys) && KidsAre(b, kids[k := child])
  {
    ChildSlotMisses(k, |keys|);
    assert KidIs(bytes, k, kids[k]);
    WordWritten(bytes, ChildStart(k), src);
    forall i | 0 <= i < |keys| ensures KeyIs(b, i, keys[i]) {
      KeyElsewhere(bytes, ChildStart(k), src, i, keys[i]);
    }
    var now := kids[k := child];
    forall i | 0 <= i < |now| ensures KidIs(b, i, now[i]) {
      if i != k {
        KidElsewhere(bytes, ChildStart(k), src, i, kids[i]);
      }
    }
  }

  /** The bytes of one cell. */
  function CellBytes(c: Cell): seq<Byte> {
    Encode(c.key, KEY_SIZE) + c.row
  }

  lemma CellWritten(bytes: seq<Byte>, rowSize: nat, k: nat, c: Cell)
    requires CellStart(rowSize, k + 1) <= |bytes| && |c.row| == rowSize
    ensures |Overwrite(bytes, CellStart(rowSize, k), CellBytes(c))| == |bytes|
    ensures CellAt(Overwrite(bytes, CellStart(rowSize, k), CellBytes(c)), rowSize, k) == c
  {
    MulStep(k, KEY_SIZE + rowSize);
    var s := CellStart(rowSize, k);
    var b := Overwrite(bytes, s, CellBytes(c));
    assert b[s..s + KEY_SIZE] == Encode(c.key, KEY_SIZE);
    assert b[s + KEY_SIZE..s + KEY_SIZE + rowSize] == c.row;
    Limit4();
    DecodeEncode(c.key, KEY_SIZE);
  }

  /** Cell slot `i` of `b` holds `c`. */
  ghost predicate CellIs(b: seq<Byte>, rowSize: nat, i: nat, c: Cell) {
    CellStart(rowSize, i + 1) <= |b| && CellAt(b, rowSize, i) == c
  }

  ghost predicate CellsAre(b: seq<Byte>, rowSize: nat, cells: seq<Cell>) {
    forall i :: 0 <= i < |cells| ==> CellIs(b, rowSize, i, cells[i])
  }

  lemma CellElsewhere(bytes: seq<Byte>, rowSize: nat, k: nat, src: seq<Byte>, i: nat, c: Cell)
    requires CellIs(bytes, rowSize, i, c) && CellStart(rowSize, k) + |src| <= |bytes| && |src| == KEY_SIZE + rowSize
             && i != k
    ensures CellIs(Overwrite(bytes, CellStart(rowSize, k), src), rowSize, i, c)
  {
    MulStep(i, KEY_SIZE + rowSize);
    MulStep(k, KEY_SIZE + rowSize);
    if i < k {
      CellFits(rowSize, i, k);
    } else {
      CellFits(rowSize, k, i);
    }
    WordElsewhere(bytes, CellStart(rowSize, k), src, CellStart(rowSize, i), KEY_SIZE);
    WordElsewhere(bytes, CellStart(rowSize, k), src, CellStart(rowSize, i) + KEY_SIZE, rowSize);
  }

  /** Writing the slot of cell `k` changes that cell and nothing else. */
  lemma WriteCellSlot(bytes: seq<Byte>, b: seq<Byte>, rowSize: nat, cells: seq<Cell>, k: nat, c: Cell)
    requires k < |cells| && CellsAre(bytes, rowSize, cells) && |c.row| == rowSize
    requires CellStart(rowSize, k + 1) <= |bytes| && b == Overwrite(bytes, CellStart(rowSize, k), CellBytes(c))
    ensures |b| == |bytes| && CellsAre(b, rowSize, cells[k := c])
  {
    CellFits(rowSize, k, k + 1);
    CellWritten(bytes, rowSize, k, c);
    var now := cells[k := c];
    forall i | 0 <= i < |now| ensures CellIs(b, rowSize, i, now[i]) {
      if i != k {
        CellElsewhere(bytes, rowSize, k, CellBytes(c), i, cells[i]);
      }
    }
  }

  /** The largest loads fit in a page, and two more separators would not. */
  lemma CapacitiesFit(rowSize: nat)
    ensures CellStart(rowSize, LeafCapacity(rowSize)) <= PAGE_SIZE < CellStart(rowSize, LeafCapacity(rowSize) + 2)
    ensures ChildStart(INNER_CAPACITY) + CHILD_SIZE <= PAGE_SIZE < ChildStart(INNER_CAPACITY + 2) + CHILD_SIZE
  {
    LeafCapacityFills(rowSize);
  }

  /** The page's bytes carry this node. */
  ghost predicate Shows(bytes: seq<Byte>, node: Node) {
    && |bytes| == PAGE_SIZE
    && (node.isRoot <==> bytes[IS_ROOT_OFFSET] != 0)
    && Word(bytes, PARENT_OFFSET, CHILD_SIZE) == node.parent
    && match node
       case Leaf(_, _, cells) =>
         && bytes[0] == NODE_TYPE_LEAF && |cells| == Count(bytes)
         && CellsAre(bytes, RowSize(bytes), cells)
       case Inner(_, _, keys, kids) =>
         && bytes[0] == NODE_TYPE_INNER && |keys| == Count(bytes) && |kids| == Count(bytes) + 1
         && KeysAre(bytes, keys) && KidsAre(bytes, kids)
  }

  /** The bytes of a page determine its node. */
  lemma ShowsOne(bytes: seq<Byte>, a: Node, b: Node)
    requires Shows(bytes, a) && Shows(bytes, b)
    ensures a == b
  {
    match a
    case Leaf(_, _, cells) =>
      assert b.Leaf? && |b.cells| == |cells|;
      forall i | 0 <= i < |cells| ensures cells[i] == b.cells[i] {
        assert CellIs(bytes, RowSize(bytes), i, cells[i]) && CellIs(bytes, RowSize(bytes), i, b.cells[i]);
      }
      assert cells == b.cells;
    case Inner(_, _, keys, kids) =>
      assert b.Inner? && |b.keys| == |keys| && |b.kids| == |kids|;
      forall i | 0 <= i < |keys| ensures keys[i] == b.keys[i] {
        assert KeyIs(bytes, i, keys[i]) && KeyIs(bytes, i, b.keys[i]);
      }
      forall i | 0 <= i < |kids| ensures kids[i] == b.kids[i] {
        assert KidIs(bytes, i, kids[i]) && KidIs(bytes, i, b.kids[i]);
      }
      assert keys == b.keys && kids == b.kids;
  }

  /** A node that a page of this row size can carry. */
  predicate Fits(n: Node, rowSize: nat) {
    && n.parent < Limit(CHILD_SIZE)
    && match n
       case Leaf(_, _, cells) =>
         && rowSize < Limit(4) && |cells| <= LeafCapacity(rowSize)
         && (forall i :: 0 <= i < |cells| ==> |cells[i].row| == rowSize)
       case Inner(_, _, keys, kids) =>
         && |keys| <= INNER_CAPACITY && |kids| == |keys| + 1
         && (forall i :: 0 <= i < |kids| ==> kids[i] < Limit(CHILD_SIZE))
  }

  function CellsBytes(cells: seq<Cell>): seq<Byte> {
    if |cells| == 0 then [] else CellsBytes(cells[..|cells| - 1]) + CellBytes(cells[|cells| - 1])
  }

  /** Children and separators in turn, a child first and last. */
  function EntriesBytes(keys: seq<Key>, kids: seq<nat>): seq<Byte>
    requires |kids| == |keys| + 1
  {
    if |keys| == 0 then Encode(kids[0], CHILD_SIZE)
    else
      var n := |keys| - 1;
      EntriesBytes(keys[..n], kids[..n + 1]) + (Encode(keys[n], KEY_SIZE) + Encode(kids[n + 1], CHILD_SIZE))
  }

  function HeaderBytes(tag: Byte, isRoot: bool, parent: nat, count: nat): (h: seq<Byte>)
    ensures |h| == INTERNAL_NODE_HEADER_SIZE
  {
    [tag, if isRoot then 1 else 0] + (Encode(parent, CHILD_SIZE) + Encode(count, 4))
  }

  /** Used bytes of a page. */
  function UsedBytes(n: Node, rowSize: nat): seq<Byte>
    requires n.Inner? ==> |n.kids| == |n.keys| + 1
  {
    match n
    case Leaf(isRoot, parent, cells) =>
      HeaderBytes(NODE_TYPE_LEAF, isRoot, parent, |cells|) + (Encode(rowSize, 4) + CellsBytes(cells))
    case Inner(isRoot, parent, keys, kids) =>
      HeaderBytes(NODE_TYPE_INNER, isRoot, parent, |keys|) + EntriesBytes(keys, kids)
  }

  /** The bytes of a page that carries the node; what the node does not use is zero. */
  function EncodeNode(n: Node, rowSize: nat): (bytes: seq<Byte>)
    requires n.Inner? ==> |n.kids| == |n.keys| + 1
    ensures |UsedBytes(n, rowSize)| <= PAGE_SIZE ==> |bytes| == PAGE_SIZE && UsedBytes(n, rowSize) <= bytes
  {
    var used := UsedBytes(n, rowSize);
    used + seq(if |used| <= PAGE_SIZE then PAGE_SIZE - |used| else 0, _ => 0)
  }

  lemma {:induction false} CellsBytesAt(cells: seq<Cell>, rowSize: nat, i: nat)
    requires forall j :: 0 <= j < |cells| ==> |cells[j].row| == rowSize
    ensures |CellsBytes(cells)| == |cells| * (KEY_SIZE + rowSize)
    ensures i < |cells| ==> 0 <= i * (KEY_SIZE + rowSize) <= (i + 1) * (KEY_SIZE + rowSize) <= |CellsBytes(cells)|
    ensures i < |cells| ==>
              CellsBytes(cells)[i * (KEY_SIZE + rowSize)..(i + 1) * (KEY_SIZE + rowSize)] == CellBytes(cells[i])
  {
    if |cells| > 0 {
      var n, w := |cells| - 1, KEY_SIZE + rowSize;
      CellsBytesAt(cells[..n], rowSize, i);
      MulStep(n, w);
      if i <= n {
        CellsStep(CellsBytes(cells[..n]), CellBytes(cells[n]), n, w, i);
      }
    }
  }

  /** A cell put behind `n` others: where it is, and that the others stay. */
  lemma CellsStep(a: seq<Byte>, c: seq<Byte>, n: nat, w: nat, i: nat)
    requires |a| == n * w && |c| == w && i <= n
    ensures i * w + w == (i + 1) * w && (i < n ==> (i + 1) * w <= |a|)
    ensures (a + c)[i * w..(i + 1) * w] == if i < n then a[i * w..(i + 1) * w] else c
  {
    MulStep(i, w);
    MulMono(i, n, w);
    if i < n {
      MulMono(i + 1, n, w);
    }
  }

  lemma {:induction false} EntriesBytesAt(keys: seq<Key>, kids: seq<nat>, i: nat)
    requires |kids| == |keys| + 1
    ensures |EntriesBytes(keys, kids)| == |keys| * 12 + CHILD_SIZE
    ensures i <= |keys| ==> EntriesBytes(keys, kids)[i * 12..i * 12 + CHILD_SIZE] == Encode(kids[i], CHILD_SIZE)
    ensures i < |keys| ==> EntriesBytes(keys, kids)[i * 12 + CHILD_SIZE..i * 12 + 12] == Encode(keys[i], KEY_SIZE)
  {
    if |keys| > 0 {
      var n := |keys| - 1;
      EntriesBytesAt(keys[..n], kids[..n + 1], i);
      EntriesStep(EntriesBytes(keys[..n], kids[..n + 1]), Encode(keys[n], KEY_SIZE), Encode(kids[n + 1], CHILD_SIZE),
        n);
    }
  }

  /** An entry put behind `n` others: where its two parts are, and that the others stay. */
  lemma EntriesStep(a: seq<Byte>, k: seq<Byte>, c: seq<Byte>, n: nat)
    requires |a| == n * 12 + CHILD_SIZE && |k| == KEY_SIZE && |c| == CHILD_SIZE
    ensures var e := a + (k + c);
            && e[n * 12 + CHILD_SIZE..n * 12 + 12] == k && e[(n + 1) * 12..(n + 1) * 12 + CHILD_SIZE] == c
            && (forall x, y :: 0 <= x <= y <= |a| ==> e[x..y] == a[x..y])
  {
  }

  /** A part of a prefix is a part of the whole. */
  lemma PartOfPrefix(a: seq<Byte>, b: seq<Byte>, bytes: seq<Byte>, x: nat, y: nat)
    requires a + b <= bytes && x <= y <= |b|
    ensures |a| + y <= |bytes| && bytes[|a| + x..|a| + y] == b[x..y]
  {
    assert bytes[..|a| + |b|] == a + b;
  }

  lemma HeaderAt(bytes: seq<Byte>, tag: Byte, isRoot: bool, parent: nat, count: nat, p: seq<Byte>, c: seq<Byte>)
    requires |bytes| == PAGE_SIZE && [tag, if isRoot then 1 else 0] + (p + c) <= bytes
    requires |p| == CHILD_SIZE && |c| == 4 && Decode(p) == parent && Decode(c) == count
    ensures bytes[0] == tag && (isRoot <==> bytes[IS_ROOT_OFFSET] != 0)
    ensures Word(bytes, PARENT_OFFSET, CHILD_SIZE) == parent && Count(bytes) == count
  {
    var a: seq<Byte> := [tag, if isRoot then 1 else 0];
    PartOfPrefix(a, p + c, bytes, 0, CHILD_SIZE);
    PartOfPrefix(a, p + c, bytes, CHILD_SIZE, CHILD_SIZE + 4);
    assert (p + c)[..CHILD_SIZE] == p && (p + c)[CHILD_SIZE..] == c;
    assert bytes[PARENT_OFFSET..PARENT_OFFSET + CHILD_SIZE] == p;
    assert bytes[COUNT_OFFSET..COUNT_OFFSET + 4] == c;
  }

  /** The bytes of a cell at its slot are the cell. */
  lemma CellThere(b: seq<Byte>, rowSize: nat, i: nat, c: Cell, k: seq<Byte>)
    requires CellStart(rowSize, i + 1) <= |b| && |c.row| == rowSize && |k| == KEY_SIZE && Decode(k) == c.key
    requires CellStart(rowSize, i) <= CellStart(rowSize, i + 1)
    requires b[CellStart(rowSize, i)..CellStart(rowSize, i + 1)] == k + c.row
    ensures CellIs(b, rowSize, i, c)
  {
    MulStep(i, KEY_SIZE + rowSize);
    var s := CellStart(rowSize, i);
    var part := b[s..s + KEY_SIZE + rowSize];
    assert part[..KEY_SIZE] == k && part[KEY_SIZE..] == c.row;
    assert b[s..s + KEY_SIZE] == part[..KEY_SIZE] && b[s + KEY_SIZE..s + KEY_SIZE + rowSize] == part[KEY_SIZE..];
  }

  lemma CellEncoded(bytes: seq<Byte>, h: seq<Byte>, cells: seq<Cell>, rowSize: nat, i: nat)
    requires h + CellsBytes(cells) <= bytes && |h| == LEAF_NODE_HEADER_SIZE && i < |cells|
    requires forall j :: 0 <= j < |cells| ==> |cells[j].row| == rowSize
    ensures CellIs(bytes, rowSize, i, cells[i])
  {
    var w := KEY_SIZE + rowSize;
    CellsBytesAt(cells, rowSize, i);
    PartOfPrefix(h, CellsBytes(cells), bytes, i * w, (i + 1) * w);
    Limit4();
    DecodeEncode(cells[i].key, KEY_SIZE);
    CellThere(bytes, rowSize, i, cells[i], Encode(cells[i].key, KEY_SIZE));
  }

  /** The header of these bytes is that of the node. */
  ghost predicate HeaderShows(bytes: seq<Byte>, n: Node) {
    && |bytes| == PAGE_SIZE
    && (n.isRoot <==> bytes[IS_ROOT_OFFSET] != 0)
    && Word(bytes, PARENT_OFFSET, CHILD_SIZE) == n.parent
    && bytes[0] == (if n.Leaf? then NODE_TYPE_LEAF else NODE_TYPE_INNER)
    && Count(bytes) == if n.Leaf? then |n.cells| else |n.keys|
  }

  lemma LeafEncoded(bytes: seq<Byte>, n: Node, rowSize: nat, h: seq<Byte>, r: seq<Byte>)
    requires n.Leaf? && Fits(n, rowSize) && HeaderShows(bytes, n) && |r| == 4 && Decode(r) == rowSize
    requires |h| == INTERNAL_NODE_HEADER_SIZE && h + r + CellsBytes(n.cells) <= bytes
    ensures Shows(bytes, n) && RowSize(bytes) == rowSize
  {
    assert RowSize(bytes) == rowSize by {
      PartOfPrefix(h, r, bytes, 0, 4);
      assert bytes[ROW_SIZE_OFFSET..ROW_SIZE_OFFSET + 4] == r;
    }
    forall i | 0 <= i < |n.cells| ensures CellIs(bytes, rowSize, i, n.cells[i]) {
      CellEncoded(bytes, h + r, n.cells, rowSize, i);
    }
  }

  lemma HeaderEncoded(bytes: seq<Byte>, tag: Byte, isRoot: bool, parent: nat, count: nat)
    requires |bytes| == PAGE_SIZE && HeaderBytes(tag, isRoot, parent, count) <= bytes
    requires parent < Limit(CHILD_SIZE) && count <= PAGE_SIZE
    ensures bytes[0] == tag && (isRoot <==> bytes[IS_ROOT_OFFSET] != 0)
    ensures Word(bytes, PARENT_OFFSET, CHILD_SIZE) == parent && Count(bytes) == count
  {
    Limit4();
    DecodeEncode(parent, CHILD_SIZE);
    DecodeEncode(count, 4);
    HeaderAt(bytes, tag, isRoot, parent, count, Encode(parent, CHILD_SIZE), Encode(count, 4));
  }

  lemma KeyEncoded(bytes: seq<Byte>, h: seq<Byte>, keys: seq<Key>, kids: seq<nat>, i: nat)
    requires |kids| == |keys| + 1 && |h| == INTERNAL_NODE_HEADER_SIZE && h + EntriesBytes(keys, kids) <= bytes
             && i < |keys|
    ensures KeyIs(bytes, i, keys[i])
  {
    EntriesBytesAt(keys, kids, i);
    Limit4();
    DecodeEncode(keys[i], KEY_SIZE);
    KeyThere(bytes, h, EntriesBytes(keys, kids), i, keys[i], Encode(keys[i], KEY_SIZE));
  }

  lemma KeyThere(b: seq<Byte>, h: seq<Byte>, e: seq<Byte>, i: nat, key: Key, src: seq<Byte>)
    requires h + e <= b && |h| == INTERNAL_NODE_HEADER_SIZE && i * 12 + 12 <= |e|
    requires e[i * 12 + CHILD_SIZE..i * 12 + 12] == src && Decode(src) == key
    ensures KeyIs(b, i, key)
  {
    PartOfPrefix(h, e, b, i * 12 + CHILD_SIZE, i * 12 + 12);
  }

  lemma KidEncoded(bytes: seq<Byte>, h: seq<Byte>, keys: seq<Key>, kids: seq<nat>, i: nat)
    requires |kids| == |keys| + 1 && |h| == INTERNAL_NODE_HEADER_SIZE && h + EntriesBytes(keys, kids) <= bytes
             && i < |kids|
    requires kids[i] < Limit(CHILD_SIZE)
    ensures KidIs(bytes, i, kids[i])
  {
    EntriesBytesAt(keys, kids, i);
    DecodeEncode(kids[i], CHILD_SIZE);
    KidThere(bytes, h, EntriesBytes(keys, kids), i, kids[i], Encode(kids[i], CHILD_SIZE));
  }

  lemma KidThere(b: seq<Byte>, h: seq<Byte>, e: seq<Byte>, i: nat, child: nat, src: seq<Byte>)
    requires h + e <= b && |h| == INTERNAL_NODE_HEADER_SIZE && i * 12 + CHILD_SIZE <= |e|
    requires e[i * 12..i * 12 + CHILD_SIZE] == src && Decode(src) == child
    ensures KidIs(b, i, child)
  {
    PartOfPrefix(h, e, b, i * 12, i * 12 + CHILD_SIZE);
  }

  lemma InnerEncoded(bytes: seq<Byte>, n: Node, rowSize: nat, h: seq<Byte>)
    requires n.Inner? && Fits(n, rowSize) && HeaderShows(bytes, n)
    requires |h| == INTERNAL_NODE_HEADER_SIZE && h + EntriesBytes(n.keys, n.kids) <= bytes
    ensures Shows(bytes, n)
  {
    forall i | 0 <= i < |n.keys| ensures KeyIs(bytes, i, n.keys[i]) {
      KeyEncoded(bytes, h, n.keys, n.kids, i);
    }
    forall i | 0 <= i < |n.kids| ensures KidIs(bytes, i, n.kids[i]) {
      KidEncoded(bytes, h, n.keys, n.kids, i);
    }
  }

  /** Every node that fits has bytes that carry it. */
  lemma EncodeShows(n: Node, rowSize: nat)
    requires Fits(n, rowSize)
    ensures Shows(EncodeNode(n, rowSize), n) && (n.Leaf? ==> RowSize(EncodeNode(n, rowSize)) == rowSize)
    ensures EncodeNode(n, rowSize)[0] == if n.Leaf? then 1 else 0
  {
    var bytes := EncodeNode(n, rowSize);
    UsedFits(n, rowSize);
    match n
    case Leaf(isRoot, parent, cells) =>
      var h := HeaderBytes(NODE_TYPE_LEAF, isRoot, parent, |cells|);
      HeaderEncoded(bytes, NODE_TYPE_LEAF, isRoot, parent, |cells|);
      assert UsedBytes(n, rowSize) == h + Encode(rowSize, 4) + CellsBytes(cells);
      DecodeEncode(rowSize, 4);
      LeafEncoded(bytes, n, rowSize, h, Encode(rowSize, 4));
    case Inner(isRoot, parent, keys, kids) =>
      var h := HeaderBytes(NODE_TYPE_INNER, isRoot, parent, |keys|);
      HeaderEncoded(bytes, NODE_TYPE_INNER, isRoot, parent, |keys|);
      InnerEncoded(bytes, n, rowSize, h);
  }

  /** A part of the page is this. */
  ghost predicate Lies(bytes: seq<Byte>, at: nat, part: seq<Byte>) {
    at + |part| <= |bytes| && bytes[at..at + |part|] == part
  }

  /** The byte offsets of everything in a page. */
  ghost predicate Layout(bytes: seq<Byte>, n: Node, rowSize: nat) {
    && |bytes| == 4096
    && bytes[0] == (if n.Leaf? then 1 else 0)
    && bytes[1] == (if n.isRoot then 1 else 0)
    && Lies(bytes, 2, Encode(n.parent, 8))
    && match n
       case Leaf(_, _, cells) =>
         && Lies(bytes, 10, Encode(|cells|, 4)) && Lies(bytes, 14, Encode(rowSize, 4))
         && (forall i :: 0 <= i < |cells| ==>
               Lies(bytes, 18 + i * (4 + rowSize), Encode(cells[i].key, 4) + cells[i].row))
       case Inner(_, _, keys, kids) =>
         && Lies(bytes, 10, Encode(|keys|, 4))
         && (forall i :: 0 <= i < |kids| ==> Lies(bytes, 14 + i * 12, Encode(kids[i], 8)))
         && (forall i :: 0 <= i < |keys| ==> Lies(bytes, 22 + i * 12, Encode(keys[i], 4)))
  }

  lemma PartLies(a: seq<Byte>, part: seq<Byte>, c: seq<Byte>, bytes: seq<Byte>)
    requires a + (part + c) <= bytes
    ensures Lies(bytes, |a|, part)
  {
    PartOfPrefix(a, part + c, bytes, 0, |part|);
    assert (part + c)[0..|part|] == part;
  }

  lemma HeaderLies(bytes: seq<Byte>, tag: Byte, flag: Byte, p: seq<Byte>, c: seq<Byte>, rest: seq<Byte>)
    requires [tag, flag] + (p + c) + rest <= bytes && |p| == 8 && |c| == 4
    ensures |bytes| >= 2 && bytes[0] == tag && bytes[1] == flag && Lies(bytes, 2, p) && Lies(bytes, 10, c)
  {
    var t: seq<Byte> := [tag, flag];
    assert t + (p + c) + rest == t + (p + (c + rest)) == (t + p) + (c + rest);
    PartLies(t, p, c + rest, bytes);
    PartLies(t + p, c, rest, bytes);
  }

  lemma LeafLies(bytes: seq<Byte>, h: seq<Byte>, r: seq<Byte>, cells: seq<Cell>, rowSize: nat)
    requires |h| == 14 && |r| == 4 && h + (r + CellsBytes(cells)) <= bytes
    requires forall j :: 0 <= j < |cells| ==> |cells[j].row| == rowSize
    ensures Lies(bytes, 14, r)
    ensures forall i :: 0 <= i < |cells| ==> Lies(bytes, 18 + i * (4 + rowSize), Encode(cells[i].key, 4) + cells[i].row)
  {
    PartLies(h, r, CellsBytes(cells), bytes);
    assert h + (r + CellsBytes(cells)) == (h + r) + CellsBytes(cells);
    forall i | 0 <= i < |cells| ensures Lies(bytes, 18 + i * (4 + rowSize), Encode(cells[i].key, 4) + cells[i].row) {
      CellsBytesAt(cells, rowSize, i);
      MulStep(i, 4 + rowSize);
      PartOfPrefix(h + r, CellsBytes(cells), bytes, i * (4 + rowSize), (i + 1) * (4 + rowSize));
    }
  }

  lemma EntryLies(bytes: seq<Byte>, h: seq<Byte>, e: seq<Byte>, x: nat, part: seq<Byte>)
    requires |h| == 14 && h + e <= bytes && x + |part| <= |e| && e[x..x + |part|] == part
    ensures Lies(bytes, 14 + x, part)
  {
    PartOfPrefix(h, e, bytes, x, x + |part|);
  }

  lemma InnerLies(bytes: seq<Byte>, h: seq<Byte>, keys: seq<Key>, kids: seq<nat>)
    requires |kids| == |keys| + 1 && |h| == 14 && h + EntriesBytes(keys, kids) <= bytes
    ensures forall i :: 0 <= i < |kids| ==> Lies(bytes, 14 + i * 12, Encode(kids[i], 8))
    ensures forall i :: 0 <= i < |keys| ==> Lies(bytes, 22 + i * 12, Encode(keys[i], 4))
  {
    forall i | 0 <= i < |kids| ensures Lies(bytes, 14 + i * 12, Encode(kids[i], 8)) {
      EntriesBytesAt(keys, kids, i);
      EntryLies(bytes, h, EntriesBytes(keys, kids), i * 12, Encode(kids[i], 8));
    }
    forall i | 0 <= i < |keys| ensures Lies(bytes, 22 + i * 12, Encode(keys[i], 4)) {
      EntriesBytesAt(keys, kids, i);
      EntryLies(bytes, h, EntriesBytes(keys, kids), i * 12 + 8, Encode(keys[i], 4));
    }
  }

  /** The encoder puts everything at its offset. */
  lemma EncodeLayout(n: Node, rowSize: nat)
    requires Fits(n, rowSize)
    ensures Layout(EncodeNode(n, rowSize), n, rowSize)
  {
    var bytes := EncodeNode(n, rowSize);
    UsedFits(n, rowSize);
    var p := Encode(n.parent, 8);
    match n
    case Leaf(isRoot, parent, cells) =>
      var h := HeaderBytes(NODE_TYPE_LEAF, isRoot, parent, |cells|);
      HeaderLies(bytes, 1, if isRoot then 1 else 0, p, Encode(|cells|, 4), Encode(rowSize, 4) + CellsBytes(cells));
      LeafLies(bytes, h, Encode(rowSize, 4), cells, rowSize);
    case Inner(isRoot, parent, keys, kids) =>
      var h := HeaderBytes(NODE_TYPE_INNER, isRoot, parent, |keys|);
      HeaderLies(bytes, 0, if isRoot then 1 else 0, p, Encode(|keys|, 4), EntriesBytes(keys, kids));
      InnerLies(bytes, h, keys, kids);
  }

  lemma CellsFit(n: nat, rowSize: nat)
    requires n <= LeafCapacity(rowSize)
    ensures n * (KEY_SIZE + rowSize) <= 4078 && n <= 4078
  {
    LeafCapacityFills(rowSize);
    MulMono(n, LeafCapacity(rowSize), KEY_SIZE + rowSize);
    MulMono(1, KEY_SIZE + rowSize, n);
  }

  /** The used bytes of a node that fits do not exceed the page. */
  lemma UsedFits(n: Node, rowSize: nat)
    requires Fits(n, rowSize)
    ensures |UsedBytes(n, rowSize)| <= PAGE_SIZE && (n.Leaf? ==> |n.cells| <= PAGE_SIZE)
  {
    if n.Leaf? {
      CellsFit(|n.cells|, rowSize);
      CellsBytesAt(n.cells, rowSize, 0);
    } else {
      EntriesBytesAt(n.keys, n.kids, 0);
    }
  }

  /** Slots read whether or not they are in use. */
  function CellSlot(bytes: seq<Byte>, rowSize: nat, i: nat): Cell {
    if CellStart(rowSize, i + 1) <= |bytes| then CellAt(bytes, rowSize, i) else Cell(0, [])
  }

  function KeySlot(bytes: seq<Byte>, i: nat): Key {
    if KeyStart(i) + KEY_SIZE <= |bytes| then KeyAt(bytes, KeyStart(i)) else 0
  }

  function ChildSlot(bytes: seq<Byte>, i: nat): nat {
    if ChildStart(i) + CHILD_SIZE <= |bytes| then Word(bytes, ChildStart(i), CHILD_SIZE) else 0
  }

  /** The page carries a node that its row size and its slots have room for. */
  ghost predicate Loadable(bytes: seq<Byte>, n: Node, rowSize: nat) {
    && Shows(bytes, n)
    && (n.Leaf? ==> RowSize(bytes) == rowSize && |n.cells| <= LeafCapacity(rowSize))
    && (n.Inner? ==> |n.keys| <= INNER_CAPACITY)
  }

  /** The pages carry these nodes. */
  ghost predicate Carries(contents: seq<seq<Byte>>, nodes: seq<Node>, rowSize: nat) {
    |contents| == |nodes| && forall p :: 0 <= p < |nodes| ==> Loadable(contents[p], nodes[p], rowSize)
  }

  /** Pages carry one list of nodes. */
  lemma CarriesOne(contents: seq<seq<Byte>>, a: seq<Node>, b: seq<Node>, rowSize: nat)
    requires Carries(contents, a, rowSize) && Carries(contents, b, rowSize)
    ensures a == b
  {
    forall p | 0 <= p < |a| ensures a[p] == b[p] {
      assert Loadable(contents[p], a[p], rowSize) && Loadable(contents[p], b[p], rowSize);
      ShowsOne(contents[p], a[p], b[p]);
    }
  }
}
