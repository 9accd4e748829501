/**
 * The packed row file: its row count is recovered from the file length (src/core/table.cpp, DbFile in
 * src/core/dbfile.cpp).
 */
module TableFile {
  import opened PageModel
  import opened Disk

  /** A size of rows that a page has room for. */
  type RowSize = n: nat | 0 < n <= PAGE_SIZE witness 1

  function RowsPerPage(rs: RowSize): (n: nat)
    ensures n > 0
  {
    PAGE_SIZE / rs
  }

  function MaxRows(rs: RowSize): nat {
    TABLE_MAX_PAGES * RowsPerPage(rs)
  }

  function PageOf(rs: RowSize, i: nat): nat
  {
    i / RowsPerPage(rs)
  }

  /** Where in its page row `i` starts. */
  function Offset(rs: RowSize, i: nat): nat
  {
    (i % RowsPerPage(rs)) * rs
  }

  function RowStart(rs: RowSize, i: nat): nat
  {
    PageOf(rs, i) * PAGE_SIZE + Offset(rs, i)
  }

  /** The length of a file of `n` rows: full pages, then as many bytes as the last rows need. */
  function FileLength(rs: RowSize, n: nat): nat
  {
    RowStart(rs, n)
  }

  /** The row count that the constructor computes from the length. */
  function RecoveredRows(rs: RowSize, length: nat): int
  {
    var numPage := (length + PAGE_SIZE - 1) / PAGE_SIZE;
    var remain := length % PAGE_SIZE;
    if remain == 0 then numPage * RowsPerPage(rs) else (numPage - 1) * RowsPerPage(rs) + remain / rs
  }

  /** A row ends inside its page; page and slot make up its number. */
  lemma RowFits(rs: RowSize, i: nat)
    ensures Offset(rs, i) + rs <= PAGE_SIZE
    ensures i == PageOf(rs, i) * RowsPerPage(rs) + i % RowsPerPage(rs)
  {
    var rpp := RowsPerPage(rs);
    assert rpp * rs <= PAGE_SIZE;
    MulMono(i % rpp + 1, rpp, rs);
    MulStep(i % rpp, rs);
  }

  /** A page has room for so many rows and no more. */
  lemma PageFull(rs: RowSize)
    ensures RowsPerPage(rs) * rs <= 4096 < (RowsPerPage(rs) + 1) * rs
  {
    DivIs(PAGE_SIZE, rs, 0, 0);
    MulStep(RowsPerPage(rs), rs);
  }

  /** Only one number of rows fills a page. */
  lemma FullPageIs(rs: RowSize, n: nat)
    requires n * rs <= 4096 < (n + 1) * rs
    ensures n == RowsPerPage(rs)
  {
    PageFull(rs);
    if n < RowsPerPage(rs) {
      MulMono(n + 1, RowsPerPage(rs), rs);
    } else if RowsPerPage(rs) < n {
      MulMono(RowsPerPage(rs) + 1, n, rs);
    }
  }

  /** With `n` rows to a page, where a row lies and how many rows there are room for. */
  lemma RowPlace(rs: RowSize, i: nat, n: nat)
    requires n * rs <= 4096 < (n + 1) * rs
    ensures n > 0 && PageOf(rs, i) == i / n && Offset(rs, i) == (i % n) * rs && MaxRows(rs) == 1000 * n
  {
    FullPageIs(rs, n);
  }

  /** The next row starts right behind this one, unless the page has no room for it: then at the next page. */
  lemma NextRow(rs: RowSize, i: nat)
    ensures Offset(rs, i) + rs <= 4096
    ensures RowStart(rs, i + 1) ==
            if Offset(rs, i) + 2 * rs <= 4096 then RowStart(rs, i) + rs else (PageOf(rs, i) + 1) * 4096
    ensures PageOf(rs, i + 1) == if Offset(rs, i) + 2 * rs <= 4096 then PageOf(rs, i) else PageOf(rs, i) + 1
    ensures RowStart(rs, i) + rs <= RowStart(rs, i + 1)
  {
    var rpp := RowsPerPage(rs);
    RowFits(rs, i);
    PageFull(rs);
    Quotient(i, rpp);
    MulStep(i % rpp, rs);
    MulStep(i % rpp + 1, rs);
    if i % rpp + 1 < rpp {
      MulMono(i % rpp + 2, rpp, rs);
    }
  }

  lemma FirstRow(rs: RowSize)
    ensures PageOf(rs, 0) == 0 && Offset(rs, 0) == 0
  {
  }

  /** There is room for row `n` exactly if it starts in one of the 1000 pages. */
  lemma RoomLeft(rs: RowSize, n: nat)
    ensures n < MaxRows(rs) <==> RowStart(rs, n) < 1000 * 4096
  {
    var rpp := RowsPerPage(rs);
    RowFits(rs, n);
    if n < MaxRows(rs) {
      PageInRange(rs, n);
    } else {
      DivIs(n, rpp, 0, 0);
      if n / rpp < TABLE_MAX_PAGES {
        MulMono(n / rpp + 1, TABLE_MAX_PAGES, rpp);
        MulStep(n / rpp, rpp);
      }
    }
  }

  lemma Quotient(i: nat, d: nat)
    requires d > 0
    ensures i % d + 1 < d ==> (i + 1) / d == i / d && (i + 1) % d == i % d + 1
    ensures i % d + 1 == d ==> (i + 1) / d == i / d + 1 && (i + 1) % d == 0
  {
    DivIs(i, d, i / d, i % d);
    if i % d + 1 < d {
      DivIs(i + 1, d, i / d, i % d + 1);
    } else {
      MulStep(i / d, d);
      DivIs(i + 1, d, i / d + 1, 0);
    }
  }

  lemma {:induction false} RowOrder(rs: RowSize, i: nat, k: nat)
    requires i < k
    ensures RowStart(rs, i) + rs <= RowStart(rs, k)
  {
    NextRow(rs, k - 1);
    if i < k - 1 {
      RowOrder(rs, i, k - 1);
    }
  }

  /** The length of a file determines how many rows it holds. */
  lemma RowCountRecovered(rs: RowSize, n: nat)
    ensures RecoveredRows(rs, FileLength(rs, n)) == n
  {
    var rpp := RowsPerPage(rs);
    var q, r := n / rpp, n % rpp;
    RowFits(rs, n);
    var length := FileLength(rs, n);
    assert length == q * PAGE_SIZE + r * rs;
    if r == 0 {
      assert length % PAGE_SIZE == 0 && (length + PAGE_SIZE - 1) / PAGE_SIZE == q;
    } else {
      MulMono(1, r, rs);
      assert length % PAGE_SIZE == r * rs && (length + PAGE_SIZE - 1) / PAGE_SIZE == q + 1;
      DivIs(r * rs, rs, r, 0);
    }
  }

  /** What lies behind the full pages is a whole number of rows. */
  lemma RemainderIsRows(rs: RowSize, n: nat)
    ensures FileLength(rs, n) % PAGE_SIZE % rs == 0
  {
    var r := n % RowsPerPage(rs);
    RowFits(rs, n);
    assert FileLength(rs, n) % PAGE_SIZE == r * rs;
    DivIs(r * rs, rs, r, 0);
  }

  /** The bytes of row `i` are in the file. */
  ghost predicate RowOnDisk(data: seq<Byte>, rs: RowSize, i: nat, row: Row) {
    RowStart(rs, i) + rs <= |data| && data[RowStart(rs, i)..RowStart(rs, i) + rs] == row
  }

  /** The file holds these rows and nothing behind them. */
  ghost predicate FileHolds(data: seq<Byte>, rs: RowSize, rows: seq<Row>) {
    |data| == FileLength(rs, |rows|) && forall i :: 0 <= i < |rows| ==> RowOnDisk(data, rs, i, rows[i])
  }

  /** A file holds one sequence of rows. */
  lemma FileHoldsOne(data: seq<Byte>, rs: RowSize, a: seq<Row>, b: seq<Row>)
    requires FileHolds(data, rs, a) && FileHolds(data, rs, b)
    ensures a == b
  {
    RowCountRecovered(rs, |a|);
    RowCountRecovered(rs, |b|);
    forall i | 0 <= i < |a| ensures a[i] == b[i] {
      assert RowOnDisk(data, rs, i, a[i]) && RowOnDisk(data, rs, i, b[i]);
    }
  }

  /** Row `i` is in this page buffer. */
  ghost predicate RowInPage(page: seq<Byte>, rs: RowSize, i: nat, row: Row) {
    Offset(rs, i) + rs <= |page| && page[Offset(rs, i)..Offset(rs, i) + rs] == row
  }

  lemma AvailableSlice(data: seq<Byte>, at: nat, n: nat, o: nat, w: nat)
    requires at + o + w <= |data| && o + w <= n && w > 0
    ensures o + w <= |Available(data, at, n)| && Available(data, at, n)[o..o + w] == data[at + o..at + o + w]
  {
  }

  /** Loading a page brings its rows along. */
  lemma RowLoaded(data: seq<Byte>, page: seq<Byte>, rs: RowSize, i: nat, row: Row)
    requires RowOnDisk(data, rs, i, row) && |page| == PAGE_SIZE
    requires Available(data, PageOf(rs, i) * PAGE_SIZE, PAGE_SIZE) <= page
    ensures RowInPage(page, rs, i, row)
  {
    RowFits(rs, i);
    AvailableSlice(data, PageOf(rs, i) * PAGE_SIZE, PAGE_SIZE, Offset(rs, i), rs);
    var a := Available(data, PageOf(rs, i) * PAGE_SIZE, PAGE_SIZE);
    var o := Offset(rs, i);
    assert page[o..o + rs] == a[o..o + rs];
  }

  /** Writing the start of a page to the file stores the rows in it. */
  lemma RowFlushed(data: seq<Byte>, page: seq<Byte>, rs: RowSize, i: nat, row: Row, size: nat)
    requires RowInPage(page, rs, i, row) && Offset(rs, i) + rs <= size <= |page|
    ensures RowOnDisk(Overwrite(data, PageOf(rs, i) * PAGE_SIZE, page[..size]), rs, i, row)
  {
    var o := Offset(rs, i);
    OverwriteSlice(data, PageOf(rs, i) * PAGE_SIZE, page[..size], o, rs);
    assert page[..size][o..o + rs] == page[o..o + rs];
  }

  /** Writing another page leaves a row alone. */
  lemma RowElsewhere(data: seq<Byte>, rs: RowSize, i: nat, row: Row, p: nat, src: seq<Byte>)
    requires RowOnDisk(data, rs, i, row) && PageOf(rs, i) != p && |src| <= PAGE_SIZE
    ensures RowOnDisk(Overwrite(data, p * PAGE_SIZE, src), rs, i, row)
  {
    RowFits(rs, i);
    PagesApart(PageOf(rs, i), p);
    var d := Overwrite(data, p * PAGE_SIZE, src);
    var at := RowStart(rs, i);
    assert d[at..at + rs] == data[at..at + rs];
  }

  lemma PagesApart(p: nat, q: nat)
    requires p != q
    ensures (p + 1) * PAGE_SIZE <= q * PAGE_SIZE || (q + 1) * PAGE_SIZE <= p * PAGE_SIZE
  {
  }

  /** A row written to its slot is there, and the other rows of the page stay. */
  lemma SlotWritten(page: seq<Byte>, now: seq<Byte>, rs: RowSize, k: nat, row: Row)
    requires |page| == |now| == PAGE_SIZE && |row| == rs
    requires forall j :: 0 <= j < PAGE_SIZE ==>
               now[j] == if Offset(rs, k) <= j < Offset(rs, k) + rs then row[j - Offset(rs, k)] else page[j]
    ensures RowInPage(now, rs, k, row)
  {
    RowFits(rs, k);
    var o := Offset(rs, k);
    assert now[o..o + rs] == row;
  }

  lemma OtherSlot(page: seq<Byte>, now: seq<Byte>, rs: RowSize, k: nat, i: nat, row: Row)
    requires |page| == |now| == PAGE_SIZE && RowInPage(page, rs, i, row) && i != k && PageOf(rs, i) == PageOf(rs, k)
    requires forall j :: 0 <= j < PAGE_SIZE && !(Offset(rs, k) <= j < Offset(rs, k) + rs) ==> now[j] == page[j]
    ensures RowInPage(now, rs, i, row)
  {
    if i < k {
      RowOrder(rs, i, k);
    } else {
      RowOrder(rs, k, i);
    }
    var o := Offset(rs, i);
    assert now[o..o + rs] == page[o..o + rs];
  }

  class DbFile {
    const file: File
    const length: nat
    const numPages: nat
    const pages: array<array?<Byte>>

    constructor (f: File)
      ensures file == f && length == |f.data| && numPages == (length + PAGE_SIZE - 1) / PAGE_SIZE
      ensures fresh(pages) && pages.Length == TABLE_MAX_PAGES && forall p :: 0 <= p < TABLE_MAX_PAGES ==>
                pages[p] == null
    {
      file := f;
      length := |f.data|;
      numPages := (|f.data| + PAGE_SIZE - 1) / PAGE_SIZE;
      pages := new array?<Byte>[TABLE_MAX_PAGES](_ => null);
    }

    /** The buffer of a page; on first use it holds what the file has of the page, then arbitrary bytes. */
    method GetPage(p: nat) returns (page: array<Byte>)
      requires p < TABLE_MAX_PAGES == pages.Length && length == |file.data|
               && numPages == (length + PAGE_SIZE - 1) / PAGE_SIZE
      modifies file`pos, pages
      ensures page == pages[p] && (old(pages[p]) != null ==> page == old(pages[p]))
      ensures forall q :: 0 <= q < TABLE_MAX_PAGES && q != p ==> pages[q] == old(pages[q])
      ensures old(pages[p]) == null ==>
                fresh(page) && page.Length == PAGE_SIZE && Available(file.data, p * PAGE_SIZE, PAGE_SIZE) <= page[..]
    {
      if pages[p] != null {
        return pages[p];
      }
      page := new Byte[PAGE_SIZE];
      if p < numPages {
        file.Seek(p * PAGE_SIZE);
        var payload := ReadBuffer(file, page, PAGE_SIZE);
        assert page[..][..payload] == page[..payload];
      }
      pages[p] := page;
    }

    /** Writes the first `size` bytes of a cached page back and drops it. */
    method FlushPage(p: nat, size: nat)
      requires p < pages.Length && (pages[p] != null ==> size <= pages[p].Length)
      modifies file, pages
      ensures pages[p] == null && forall q :: 0 <= q < pages.Length && q != p ==> pages[q] == old(pages[q])
      ensures old(pages[p]) == null ==> file.data == old(file.data)
      ensures old(pages[p]) != null ==> file.data == Overwrite(old(file.data), p * PAGE_SIZE, old(pages[p][..])[..size])
    {
      if pages[p] == null {
        return;
      }
      file.Seek(p * PAGE_SIZE);
      var _ := WriteBuffer(file, pages[p][..][..size]);
      pages[p] := null;
    }
  }

  datatype ExecuteStatus = EXECUTE_SUCCESS | TABLE_FULL

  class Table {
    const rowSize: RowSize
    const dbfile: DbFile
    var numRows: nat
    /** The rows of the table, and those that the file held when the table was opened. */
    ghost var rows: seq<Row>
    ghost const saved: seq<Row>
    ghost var Repr: set<object>

    ghost predicate PageIn(p: nat)
      requires p < dbfile.pages.Length
      reads this, dbfile.pages, Repr
    {
      dbfile.pages[p] != null ==> dbfile.pages[p] in Repr && dbfile.pages[p].Length == PAGE_SIZE
    }

    /** A row is in its cached page, or in the file if that page is not cached. */
    ghost predicate RowIn(i: nat)
      requires i < |rows|
      reads this, dbfile.pages, dbfile.file, Repr
    {
      var p := PageOf(rowSize, i);
      && p < dbfile.pages.Length && PageIn(p)
      && (dbfile.pages[p] != null ==> RowInPage(dbfile.pages[p][..], rowSize, i, rows[i]))
      && (dbfile.pages[p] == null ==> RowOnDisk(dbfile.file.data, rowSize, i, rows[i]))
    }

    ghost predicate Live()
      reads this, dbfile.pages, dbfile.file, Repr
    {
      && this !in Repr && dbfile !in Repr && dbfile.file !in Repr && dbfile.pages !in Repr
      && dbfile.pages.Length == TABLE_MAX_PAGES && numRows == |rows| <= MaxRows(rowSize)
      && (forall p :: 0 <= p < TABLE_MAX_PAGES ==> PageIn(p))
      && (forall p, q :: 0 <= p < q < TABLE_MAX_PAGES && dbfile.pages[p] != null ==> dbfile.pages[p] != dbfile.pages[q])
      && (forall i :: 0 <= i < |rows| ==> |rows[i]| == rowSize && RowIn(i))
    }

    ghost predicate Valid()
      reads this, dbfile.pages, dbfile.file, Repr
    {
      && Live() && saved <= rows && |dbfile.file.data| == dbfile.length == FileLength(rowSize, |saved|)
      && dbfile.numPages == (dbfile.length + PAGE_SIZE - 1) / PAGE_SIZE
    }

    /** Opens a row file, or an empty one. */
    constructor (rowSize: RowSize, f: File, ghost held: seq<Row>)
      requires FileHolds(f.data, rowSize, held) && |held| <= MaxRows(rowSize)
      ensures Valid() && this.rowSize == rowSize && dbfile.file == f && rows == saved == held && numRows == |held|
      ensures fresh(Repr) && fresh(dbfile) && fresh(dbfile.pages)
    {
      this.rowSize := rowSize;
      var db := new DbFile(f);
      dbfile := db;
      rows, saved, Repr := held, held, {};
      var remain := db.length % PAGE_SIZE;
      RowCountRecovered(rowSize, |held|);
      if remain == 0 {
        numRows := db.numPages * RowsPerPage(rowSize);
      } else {
        RemainderIsRows(rowSize, |held|);
        assert remain % rowSize == 0;
        numRows := (db.numPages - 1) * RowsPerPage(rowSize) + remain / rowSize;
      }
      new;
      forall i | 0 <= i < |rows| ensures |rows[i]| == rowSize && RowIn(i) {
        assert RowOnDisk(f.data, rowSize, i, held[i]);
        PageInRange(rowSize, i);
      }
    }

    /** The page and the offset of a row. */
    method GetRowSlot(i: nat) returns (page: array<Byte>, offset: nat)
      requires Valid() && i < MaxRows(rowSize)
      modifies this`Repr, dbfile.file`pos, dbfile.pages
      ensures Valid() && rows == old(rows) && fresh(Repr - old(Repr)) && offset == Offset(rowSize, i)
      ensures PageOf(rowSize, i) < dbfile.pages.Length && page == dbfile.pages[PageOf(rowSize, i)] && page in Repr
              && page.Length == PAGE_SIZE
      ensures i < numRows ==> RowInPage(page[..], rowSize, i, rows[i])
    {
      var p := i / RowsPerPage(rowSize);
      PageInRange(rowSize, i);
      assert PageIn(p);
      page := dbfile.GetPage(p);
      offset := (i % RowsPerPage(rowSize)) * rowSize;
      Repr := Repr + {page};
      forall q | 0 <= q < TABLE_MAX_PAGES ensures PageIn(q) {
        assert old(PageIn(q));
      }
      forall k | 0 <= k < |rows| ensures |rows[k]| == rowSize && RowIn(k) {
        assert old(RowIn(k));
        if PageOf(rowSize, k) == p && old(dbfile.pages[p]) == null {
          RowLoaded(dbfile.file.data, page[..], rowSize, k, rows[k]);
        }
      }
      if i < numRows {
        assert RowIn(i);
      }
    }


    /** Writes a row into a slot. */
    method WriteSlot(page: array<Byte>, offset: nat, row: Row)
      requires offset + |row| <= page.Length
      modifies page
      ensures forall j :: 0 <= j < page.Length ==>
                page[j] == if offset <= j < offset + |row| then row[j - offset] else old(page[j])
    {
      forall j | 0 <= j < |row| {
        page[offset + j] := row[j];
      }
    }

    /** Adds a row behind the last one, unless the table is full. */
    method Append(row: Row) returns (status: ExecuteStatus)
      requires Valid() && |row| == rowSize
      modifies this, dbfile.file`pos, dbfile.pages, Repr
      ensures Valid() && fresh(Repr - old(Repr))
      ensures status == TABLE_FULL <==> RowStart(rowSize, |old(rows)|) >= 1000 * 4096
      ensures status == TABLE_FULL <==> |old(rows)| == MaxRows(rowSize)
      ensures rows == if status == EXECUTE_SUCCESS then old(rows) + [row] else old(rows)
    {
      RoomLeft(rowSize, numRows);
      if numRows >= MaxRows(rowSize) {
        return TABLE_FULL;
      }
      var page, offset := GetRowSlot(numRows);
      RowFits(rowSize, numRows);
      ghost var bytes := page[..];
      label got:
      WriteSlot(page, offset, row);
      numRows := numRows + 1;
      rows := rows + [row];
      ghost var p := PageOf(rowSize, numRows - 1);
      forall q | 0 <= q < TABLE_MAX_PAGES ensures PageIn(q) {
        assert old@got(PageIn(q));
      }
      forall k | 0 <= k < |rows| ensures |rows[k]| == rowSize && RowIn(k) {
        if k == numRows - 1 {
          SlotWritten(bytes, page[..], rowSize, k, row);
        } else {
          assert old@got(RowIn(k));
          if PageOf(rowSize, k) == p {
            OtherSlot(bytes, page[..], rowSize, numRows - 1, k, rows[k]);
          }
        }
      }
      return EXECUTE_SUCCESS;
    }

    /** Reads a row through its slot. */
    method ReadRow(i: nat) returns (row: Row)
      requires Valid() && i < numRows
      modifies this`Repr, dbfile.file`pos, dbfile.pages
      ensures Valid() && rows == old(rows) && fresh(Repr - old(Repr)) && row == rows[i]
    {
      var page, offset := GetRowSlot(i);
      row := page[..][offset..offset + rowSize];
    }

    /** Flushing a page whose rows end before `size` keeps every row. */
    method FlushRows(p: nat, size: nat)
      requires Live() && p < TABLE_MAX_PAGES && size <= PAGE_SIZE
      requires forall i :: 0 <= i < |rows| && PageOf(rowSize, i) == p ==> Offset(rowSize, i) + rowSize <= size
      modifies dbfile.file, dbfile.pages
      ensures Live() && dbfile.pages[p] == null && forall q :: 0 <= q < TABLE_MAX_PAGES && q != p ==>
                dbfile.pages[q] == old(dbfile.pages[q])
      ensures |old(dbfile.file.data)| <= |dbfile.file.data|
      ensures |dbfile.file.data| <= |old(dbfile.file.data)| || |dbfile.file.data| == p * PAGE_SIZE + size
      ensures old(dbfile.pages[p]) != null && size > 0 ==> p * PAGE_SIZE + size <= |dbfile.file.data|
    {
      assert PageIn(p);
      dbfile.FlushPage(p, size);
      forall q | 0 <= q < TABLE_MAX_PAGES ensures PageIn(q) {
        assert old(PageIn(q));
      }
      forall i | 0 <= i < |rows| ensures |rows[i]| == rowSize && RowIn(i) {
        assert old(RowIn(i));
        if old(dbfile.pages[p]) != null {
          if PageOf(rowSize, i) == p {
            RowFlushed(old(dbfile.file.data), old(dbfile.pages[p][..]), rowSize, i, rows[i], size);
          } else if dbfile.pages[PageOf(rowSize, i)] == null {
            RowElsewhere(old(dbfile.file.data), rowSize, i, rows[i], p, old(dbfile.pages[p][..])[..size]);
          }
        }
      }
    }

    /** The last page is cached, or no row was added. */
    lemma LastIsCached()
      requires Valid() && 0 < |rows|
      ensures PageOf(rowSize, |rows| - 1) < TABLE_MAX_PAGES
      ensures dbfile.pages[PageOf(rowSize, |rows| - 1)] != null || FileLength(rowSize, |rows|) == |dbfile.file.data|
    {
      assert RowIn(|rows| - 1);
      if |saved| < |rows| {
        LengthGrows(rowSize, |saved|, |rows| - 1);
      }
    }

    /** Writes every page back, the last one only as far as its rows go. */
    method Close()
      requires Valid() && numRows > 0
      modifies this, dbfile.file, dbfile.pages
      ensures FileHolds(dbfile.file.data, rowSize, old(rows)) && numRows == 0
    {
      var rowsPerPage := RowsPerPage(rowSize);
      var total := (numRows + rowsPerPage - 1) / rowsPerPage;
      LastPage(rowSize, numRows);
      LengthGrows(rowSize, |saved|, |rows|);
      LastIsCached();
      for i := 0 to total - 1
        invariant Live() && rows == old(rows) && numRows == old(numRows)
        invariant FileLength(rowSize, |saved|) <= |dbfile.file.data| <= FileLength(rowSize, |rows|)
        invariant forall q :: 0 <= q < i ==> dbfile.pages[q] == null
        invariant forall q :: i <= q < TABLE_MAX_PAGES ==> dbfile.pages[q] == old(dbfile.pages[q])
      {
        forall k | 0 <= k < |rows| && PageOf(rowSize, k) == i ensures Offset(rowSize, k) + rowSize <= PAGE_SIZE {
          RowFits(rowSize, k);
        }
        FlushRows(i, PAGE_SIZE);
      }
      var remain := numRows % rowsPerPage;
      RowFits(rowSize, numRows);
      var size := if remain == 0 then PAGE_SIZE else remain * rowSize;
      assert size <= PAGE_SIZE && (total - 1) * PAGE_SIZE + size == FileLength(rowSize, |rows|);
      forall k | 0 <= k < |rows| && PageOf(rowSize, k) == total - 1 ensures Offset(rowSize, k) + rowSize <= size {
        LastRowsFit(rowSize, numRows, k);
      }
      FlushRows(total - 1, size);
      forall k | 0 <= k < |rows| ensures RowOnDisk(dbfile.file.data, rowSize, k, rows[k]) {
        assert RowIn(k);
      }
      numRows := 0;
    }
  }

  lemma PageOrder(rs: RowSize, i: nat, k: nat)
    requires i < k
    ensures PageOf(rs, i) <= PageOf(rs, k)
  {
    RowOrder(rs, i, k);
    RowFits(rs, k);
  }

  lemma LengthGrows(rs: RowSize, n: nat, m: nat)
    requires n <= m
    ensures FileLength(rs, n) <= FileLength(rs, m)
    ensures n < m ==> FileLength(rs, n) + rs <= FileLength(rs, m)
  {
    if n < m {
      RowOrder(rs, n, m);
    }
  }

  lemma LastRowsFit(rs: RowSize, n: nat, k: nat)
    requires k < n && PageOf(rs, k) == PageOf(rs, n - 1)
    ensures Offset(rs, k) + rs <= if n % RowsPerPage(rs) == 0 then PAGE_SIZE else (n % RowsPerPage(rs)) * rs
  {
    RowFits(rs, k);
    RowOrder(rs, k, n);
    Quotient(n - 1, RowsPerPage(rs));
  }

  /** The last page, and what its rows need of it. */
  lemma LastPage(rs: RowSize, n: nat)
    requires 0 < n <= MaxRows(rs)
    ensures (n + RowsPerPage(rs) - 1) / RowsPerPage(rs) == PageOf(rs, n - 1) + 1
    ensures forall i :: 0 <= i < n ==> PageOf(rs, i) <= PageOf(rs, n - 1)
    ensures PageOf(rs, n - 1) < TABLE_MAX_PAGES
    ensures n % RowsPerPage(rs) == 0 ==> FileLength(rs, n) == (PageOf(rs, n - 1) + 1) * PAGE_SIZE
    ensures n % RowsPerPage(rs) != 0 ==> FileLength(rs, n) == PageOf(rs, n - 1) * PAGE_SIZE + Offset(rs, n)
  {
    var rpp := RowsPerPage(rs);
    PageInRange(rs, n - 1);
    Quotient(n - 1, rpp);
    DivIs(n - 1, rpp, 0, 0);
    MulStep((n - 1) / rpp, rpp);
    DivIs(n + rpp - 1, rpp, (n - 1) / rpp + 1, (n - 1) % rpp);
    forall i | 0 <= i < n ensures PageOf(rs, i) <= PageOf(rs, n - 1) {
      if i < n - 1 {
        PageOrder(rs, i, n - 1);
      }
    }
  }

  lemma PageInRange(rs: RowSize, i: nat)
    requires i < MaxRows(rs)
    ensures PageOf(rs, i) < TABLE_MAX_PAGES
  {
    RowFits(rs, i);
    if PageOf(rs, i) >= TABLE_MAX_PAGES {
      MulMono(TABLE_MAX_PAGES, PageOf(rs, i), RowsPerPage(rs));
    }
  }

  /** The rows of a table after a batch of inserts: those of the batch that come while there is room are kept. */
  function Kept(rs: RowSize, rows: seq<Row>, batch: seq<Row>): seq<Row>
    requires |rows| <= MaxRows(rs)
  {
    rows + batch[..Min(|batch|, MaxRows(rs) - |rows|)]
  }

  lemma KeptTwice(rs: RowSize, rows: seq<Row>, a: seq<Row>, b: seq<Row>)
    requires |rows| <= MaxRows(rs)
    ensures Kept(rs, Kept(rs, rows, a), b) == Kept(rs, rows, a + b)
  {
  }

  lemma KeptStep(rs: RowSize, rows: seq<Row>, batch: seq<Row>, i: nat)
    requires |rows| <= MaxRows(rs) && i < |batch|
    ensures var now := Kept(rs, rows, batch[..i]);
            Kept(rs, rows, batch[..i + 1]) == if |now| < MaxRows(rs) then now + [batch[i]] else now
  {
    KeptTwice(rs, rows, batch[..i], [batch[i]]);
    assert batch[..i] + [batch[i]] == batch[..i + 1];
  }

  function Flatten(batches: seq<seq<Row>>): seq<Row> {
    if batches == [] then [] else Flatten(batches[..|batches| - 1]) + batches[|batches| - 1]
  }

  lemma KeptSession(rs: RowSize, batches: seq<seq<Row>>, i: nat)
    requires i < |batches|
    ensures Kept(rs, [], Flatten(batches[..i + 1])) == Kept(rs, Kept(rs, [], Flatten(batches[..i])), batches[i])
    ensures Kept(rs, [], Flatten(batches[..i])) != [] || batches[i] != [] ==>
              Kept(rs, [], Flatten(batches[..i + 1])) != []
  {
    KeptTwice(rs, [], Flatten(batches[..i]), batches[i]);
    assert batches[..i + 1][..i] == batches[..i];
  }

  /** One session: open, insert, close. */
  method Session(rs: RowSize, f: File, ghost held: seq<Row>, batch: seq<Row>)
    requires FileHolds(f.data, rs, held) && |held| <= MaxRows(rs) && (held != [] || batch != [])
    requires forall row :: row in batch ==> |row| == rs
    modifies f
    ensures FileHolds(f.data, rs, Kept(rs, held, batch))
  {
    var table := new Table(rs, f, held);
    for i := 0 to |batch|
      invariant table.Valid() && table.rowSize == rs && table.dbfile.file == f
      invariant fresh(table) && fresh(table.Repr) && fresh(table.dbfile.pages)
      invariant table.rows == Kept(rs, held, batch[..i])
    {
      var status := table.Append(batch[i]);
      KeptStep(rs, held, batch, i);
    }
    assert batch[..|batch|] == batch;
    table.Close();
  }

  /**
   * After any sessions from an empty file, opening recovers every row that there was room for, in order, at its slot.
   */
  method Sessions(rs: RowSize, f: File, batches: seq<seq<Row>>) returns (table: Table)
    requires f.data == [] && (batches != [] ==> batches[0] != [])
    requires forall i, row :: 0 <= i < |batches| && row in batches[i] ==> |row| == rs
    modifies f
    ensures table.Valid() && table.rowSize == rs && table.rows == Kept(rs, [], Flatten(batches))
            && table.numRows == |table.rows|
  {
    for i := 0 to |batches|
      invariant FileHolds(f.data, rs, Kept(rs, [], Flatten(batches[..i])))
      invariant i > 0 ==> Kept(rs, [], Flatten(batches[..i])) != []
    {
      ghost var held := Kept(rs, [], Flatten(batches[..i]));
      Session(rs, f, held, batches[i]);
      KeptSession(rs, batches, i);
    }
    assert batches[..|batches|] == batches;
    table := new Table(rs, f, Kept(rs, [], Flatten(batches)));
  }
}
