/** The page cache over a file with a 16-byte header (src/core/dbfile.cpp, BTreePager). */
module PageFile {
  import opened PageModel
  import opened Disk

  const META_SIZE: nat := 16
  const WORD: nat := 8

  function PageStart(p: nat): nat {
    META_SIZE + p * PAGE_SIZE
  }

  /** The whole page `p` is in the file. */
  ghost predicate OnDisk(data: seq<Byte>, p: nat, page: seq<Byte>) {
    PageStart(p + 1) <= |data| && data[PageStart(p)..PageStart(p + 1)] == page
  }

  function Header(rootPid: nat, numPages: nat): (h: seq<Byte>)
    ensures |h| == META_SIZE
  {
    Encode(rootPid, WORD) + Encode(numPages, WORD)
  }

  /** The file holds exactly these pages under this root. */
  ghost predicate Persisted(data: seq<Byte>, rootPid: nat, contents: seq<seq<Byte>>) {
    && |data| >= META_SIZE && data[..META_SIZE] == Header(rootPid, |contents|)
    && rootPid < Limit(WORD) && |contents| <= TABLE_MAX_PAGES
    && (forall p :: 0 <= p < |contents| ==> |contents[p]| == PAGE_SIZE && OnDisk(data, p, contents[p]))
  }

  /** Where everything lies in a closed file: two words of eight bytes, least significant byte first, then the pages. */
  lemma PersistedLayout(data: seq<Byte>, rootPid: nat, contents: seq<seq<Byte>>)
    requires Persisted(data, rootPid, contents)
    ensures |data| >= 16 + 4096 * |contents|
    ensures forall i :: 0 <= i < 8 ==> data[i] == rootPid / Limit(i) % 256
    ensures forall i :: 0 <= i < 8 ==> data[8 + i] == |contents| / Limit(i) % 256
    ensures forall p :: 0 <= p < |contents| ==> data[16 + 4096 * p..16 + 4096 * (p + 1)] == contents[p]
  {
    assert |contents| > 0 ==> OnDisk(data, |contents| - 1, contents[|contents| - 1]);
    var a, b := Encode(rootPid, WORD), Encode(|contents|, WORD);
    assert data[..META_SIZE] == a + b;
    forall i | 0 <= i < 8 ensures data[i] == rootPid / Limit(i) % 256 && data[8 + i] == |contents| / Limit(i) % 256 {
      EncodeDigit(rootPid, WORD, i);
      EncodeDigit(|contents|, WORD, i);
      assert data[i] == data[..META_SIZE][i] == a[i];
      assert data[8 + i] == data[..META_SIZE][8 + i] == b[i];
    }
    forall p | 0 <= p < |contents| ensures data[16 + 4096 * p..16 + 4096 * (p + 1)] == contents[p] {
      assert OnDisk(data, p, contents[p]);
    }
  }

  /** Page regions do not overlap. */
  lemma RegionsApart(p: nat, q: nat)
    requires p != q
    ensures PageStart(p + 1) <= PageStart(q) || PageStart(q + 1) <= PageStart(p)
    ensures META_SIZE <= PageStart(p)
  {
  }

  /** Writing page `q` leaves every other page on disk. */
  lemma OtherPageStays(data: seq<Byte>, p: nat, page: seq<Byte>, q: nat, src: seq<Byte>)
    requires OnDisk(data, p, page) && p != q && |src| == PAGE_SIZE
    ensures OnDisk(Overwrite(data, PageStart(q), src), p, page)
  {
    RegionsApart(p, q);
    var d := Overwrite(data, PageStart(q), src);
    assert d[PageStart(p)..PageStart(p + 1)] == data[PageStart(p)..PageStart(p + 1)];
  }

  lemma WrittenPageIsThere(data: seq<Byte>, q: nat, src: seq<Byte>)
    requires |src| == PAGE_SIZE
    ensures OnDisk(Overwrite(data, PageStart(q), src), q, src)
  {
    var d := Overwrite(data, PageStart(q), src);
    assert d[PageStart(q)..PageStart(q + 1)] == src;
  }

  /** Writing the header leaves every page on disk. */
  lemma HeaderWrite(data: seq<Byte>, p: nat, page: seq<Byte>, h: seq<Byte>)
    requires OnDisk(data, p, page) && |h| == META_SIZE
    ensures OnDisk(Overwrite(data, 0, h), p, page)
  {
    var d := Overwrite(data, 0, h);
    assert d[PageStart(p)..PageStart(p + 1)] == data[PageStart(p)..PageStart(p + 1)];
  }

  /** The two header words are the root id and the page count. */
  lemma HeaderFields(data: seq<Byte>, rootPid: nat, numPages: nat)
    requires |data| >= META_SIZE && data[..META_SIZE] == Header(rootPid, numPages)
    requires rootPid < Limit(WORD) && numPages <= TABLE_MAX_PAGES
    ensures Decode(data[0..WORD]) == rootPid && Decode(data[WORD..2 * WORD]) == numPages
  {
    assert data[0..WORD] == data[..META_SIZE][..WORD] == Encode(rootPid, WORD);
    assert data[WORD..2 * WORD] == data[..META_SIZE][WORD..] == Encode(numPages, WORD);
    assert Limit(2) == 65536;
    LimitGrows(2, WORD);
    DecodeEncode(rootPid, WORD);
    DecodeEncode(numPages, WORD);
  }

  lemma {:induction false} LimitGrows(a: nat, b: nat)
    requires a <= b
    ensures Limit(a) <= Limit(b)
  {
    if a < b {
      LimitGrows(a, b - 1);
    }
  }

  method ReadWord(f: File) returns (n: nat)
    requires f.pos + WORD <= |f.data|
    modifies f`pos
    ensures n == Decode(f.data[old(f.pos)..old(f.pos) + WORD]) && f.pos == old(f.pos) + WORD
  {
    var word := new Byte[WORD];
    var nread := ReadBuffer(f, word, WORD);
    assert word[..] == word[..nread];
    n := Decode(word[..]);
  }

  class BTreePager {
    const file: File
    var rootPid: nat
    var numPages: nat
    const pages: array<array?<Byte>>
    /** The plain growing array of pages that the cache and the file together stand for. */
    ghost var contents: seq<seq<Byte>>
    ghost var Repr: set<object>

    ghost predicate PageIn(p: nat)
      requires p < |contents| <= pages.Length
      reads this, pages, file, Repr
    {
      && |contents[p]| == PAGE_SIZE
      && (pages[p] != null ==> pages[p] in Repr && pages[p][..] == contents[p])
      && (pages[p] == null ==> OnDisk(file.data, p, contents[p]))
    }

    ghost predicate Valid()
      reads this, pages, file, Repr
    {
      && file !in Repr && pages !in Repr && this !in Repr
      && numPages == |contents| <= pages.Length == TABLE_MAX_PAGES && rootPid < Limit(WORD)
      && (forall p :: 0 <= p < |contents| ==> PageIn(p))
      && (forall p, q :: 0 <= p < q < |contents| && pages[p] != null ==> pages[p] != pages[q])
    }

    method WriteToDisk()
      requires rootPid < Limit(WORD)
      modifies file
      ensures file.data == Overwrite(old(file.data), 0, Header(rootPid, numPages))
    {
      file.Seek(0);
      var _ := WriteBuffer(file, Encode(rootPid, WORD));
      var _ := WriteBuffer(file, Encode(numPages, WORD));
      OverwriteTwice(old(file.data), 0, Encode(rootPid, WORD), Encode(numPages, WORD));
    }

    /** Opens a new, truncated file. */
    constructor Create(f: File)
      modifies f
      ensures Valid() && file == f && f.data == [] && contents == [] && rootPid == 0 && fresh(Repr) && fresh(pages)
    {
      file := f;
      rootPid, numPages := 0, 0;
      pages := new array?<Byte>[TABLE_MAX_PAGES](_ => null);
      contents := [];
      Repr := {};
      new;
      f.data := [];
      f.pos := 0;
    }

    /** Opens a file written by an earlier pager. */
    constructor Open(f: File, ghost root: nat, ghost saved: seq<seq<Byte>>)
      requires Persisted(f.data, root, saved)
      modifies f`pos
      ensures Valid() && file == f && contents == saved && rootPid == root && fresh(Repr) && fresh(pages)
    {
      file := f;
      rootPid, numPages := 0, 0;
      pages := new array?<Byte>[TABLE_MAX_PAGES](_ => null);
      contents := saved;
      Repr := {};
      new;
      HeaderFields(f.data, root, |saved|);
      f.Seek(0);
      rootPid := ReadWord(f);
      numPages := ReadWord(f);
    }

    /** The cached buffer of a page, read from disk on first use. */
    method GetPage(p: nat) returns (page: array<Byte>)
      requires Valid() && p < numPages
      modifies this`Repr, file`pos, pages
      ensures Valid() && contents == old(contents) && rootPid == old(rootPid)
      ensures page == pages[p] && page[..] == contents[p] && fresh(Repr - old(Repr)) && page in Repr
    {
      assert PageIn(p);
      if pages[p] != null {
        return pages[p];
      }
      page := new Byte[PAGE_SIZE];
      file.Seek(PageStart(p));
      var nbytes := ReadBuffer(file, page, PAGE_SIZE);
      assert nbytes == PAGE_SIZE;
      assert page[..] == page[..nbytes] == contents[p];
      pages[p] := page;
      Repr := Repr + {page};
      forall q | 0 <= q < |contents| ensures PageIn(q) {
        assert old(PageIn(q));
      }
    }

    /** A new page whose bytes are whatever the allocated memory holds. */
    method AllocatePage() returns (page: array<Byte>, p: nat)
      requires Valid() && numPages < TABLE_MAX_PAGES
      modifies this, file, pages
      ensures Valid() && p == |old(contents)| && contents == old(contents) + [page[..]] && rootPid == old(rootPid)
      ensures |file.data| >= META_SIZE && file.data[..META_SIZE] == Header(rootPid, numPages)
      ensures page == pages[p] && page.Length == PAGE_SIZE && fresh(Repr - old(Repr)) && page in Repr
              && page !in old(Repr)
    {
      page := new Byte[PAGE_SIZE];
      numPages := numPages + 1;
      pages[numPages - 1] := page;
      contents := contents + [page[..]];
      Repr := Repr + {page};
      WriteToDisk();
      forall q | 0 <= q < |contents| ensures PageIn(q) {
        if q < numPages - 1 {
          assert old(PageIn(q));
          if pages[q] == null {
            HeaderWrite(old(file.data), q, contents[q], Header(rootPid, numPages));
          }
        }
      }
      return page, numPages - 1;
    }

    /** A client writes into a cached page. */
    method Poke(p: nat, offset: nat, b: Byte)
      requires Valid() && p < numPages && offset < |contents[p]|
      modifies this`contents, this`Repr, file`pos, pages, Repr
      ensures Valid() && |contents| == |old(contents)| && |contents[p]| == |old(contents)[p]|
      ensures contents[p][offset] == b
      ensures forall i :: 0 <= i < |contents[p]| && i != offset ==> contents[p][i] == old(contents)[p][i]
      ensures forall q :: 0 <= q < |contents| && q != p ==> contents[q] == old(contents)[q]
      ensures rootPid == old(rootPid) && fresh(Repr - old(Repr))
    {
      var page := GetPage(p);
      assert forall q :: 0 <= q < |contents| ==> PageIn(q);
      label got:
      page[offset] := b;
      contents := contents[p := page[..]];
      forall q | 0 <= q < |contents| ensures PageIn(q) {
        assert old@got(PageIn(q));
      }
    }

    /** A client overwrites a cached page. */
    method Fill(p: nat, bytes: seq<Byte>)
      requires Valid() && p < numPages && |bytes| == PAGE_SIZE
      modifies this`contents, this`Repr, file`pos, pages, Repr
      ensures Valid() && contents == old(contents)[p := bytes] && rootPid == old(rootPid) && fresh(Repr - old(Repr))
    {
      var page := GetPage(p);
      assert forall q :: 0 <= q < |contents| ==> PageIn(q);
      assert PageIn(p);
      label got:
      forall i | 0 <= i < PAGE_SIZE {
        page[i] := bytes[i];
      }
      contents := contents[p := bytes];
      assert page[..] == bytes;
      forall q | 0 <= q < |contents| ensures PageIn(q) {
        assert old@got(PageIn(q));
      }
    }

    method SetRootPage(p: nat)
      requires Valid() && p < Limit(WORD)
      modifies this`rootPid
      ensures Valid() && contents == old(contents) && rootPid == p
    {
      rootPid := p;
      forall q | 0 <= q < |contents| ensures PageIn(q) {
        assert old(PageIn(q));
      }
    }

    /** Writes a cached page back and keeps it cached. */
    method Sync(p: nat)
      requires Valid() && p < numPages
      modifies file
      ensures Valid() && OnDisk(file.data, p, contents[p])
      ensures |file.data| >= |old(file.data)|
      ensures |old(file.data)| >= META_SIZE ==> file.data[..META_SIZE] == old(file.data)[..META_SIZE]
    {
      assert PageIn(p);
      if pages[p] == null {
        return;
      }
      file.Seek(PageStart(p));
      var nbytes := WriteBuffer(file, pages[p][..]);
      assert nbytes == PAGE_SIZE;
      WrittenPageIsThere(old(file.data), p, contents[p]);
      forall q | 0 <= q < |contents| ensures PageIn(q) {
        assert old(PageIn(q));
        if q != p && pages[q] == null {
          OtherPageStays(old(file.data), q, contents[q], p, contents[p]);
        }
      }
    }

    /** Writes a cached page back and drops it from the cache. */
    method FlushPage(p: nat)
      requires Valid() && p < numPages
      modifies file, pages
      ensures Valid() && pages[p] == null
      ensures forall q :: 0 <= q < |contents| && q != p ==> pages[q] == old(pages[q])
      ensures |file.data| >= |old(file.data)|
      ensures |old(file.data)| >= META_SIZE ==> file.data[..META_SIZE] == old(file.data)[..META_SIZE]
    {
      if pages[p] == null {
        return;
      }
      Sync(p);
      label synced:
      pages[p] := null;
      forall q | 0 <= q < |contents| ensures PageIn(q) {
        assert old@synced(PageIn(q));
      }
    }

    /** Closing writes the header and every cached page; the file then holds the whole state. */
    method Close()
      requires Valid()
      modifies file, pages
      ensures Persisted(file.data, rootPid, contents)
      ensures |file.data| >= 16 + 4096 * |contents|
      ensures forall p :: 0 <= p < |contents| ==> file.data[16 + 4096 * p..16 + 4096 * (p + 1)] == contents[p]
    {
      WriteToDisk();
      assert file.data[..META_SIZE] == Header(rootPid, numPages);
      forall q | 0 <= q < |contents| ensures PageIn(q) {
        assert old(PageIn(q));
        if pages[q] == null {
          HeaderWrite(old(file.data), q, contents[q], Header(rootPid, numPages));
        }
      }
      for i := 0 to numPages
        invariant Valid() && |file.data| >= META_SIZE && file.data[..META_SIZE] == Header(rootPid, numPages)
        invariant forall q :: 0 <= q < i ==> pages[q] == null
      {
        FlushPage(i);
      }
      forall q | 0 <= q < |contents| ensures |contents[q]| == PAGE_SIZE && OnDisk(file.data, q, contents[q]) {
        assert PageIn(q);
      }
      PersistedLayout(file.data, rootPid, contents);
    }
  }

  /** What a client can do to a pager. */
  datatype Op = Allocate | Get(p: nat) | Write(p: nat, offset: nat, b: Byte) | Sync(p: nat) | Flush(p: nat)
    | SetRoot(p: nat)

  /** The plain growing array of pages, with the root id. */
  datatype Store = Store(rootPid: nat, contents: seq<seq<Byte>>)

  /** An operation names existing pages, and an allocation stays within the page table. */
  predicate Legal(op: Op, n: nat) {
    match op
    case Allocate => n < TABLE_MAX_PAGES
    case Get(p) => p < n
    case Write(p, offset, _) => p < n && offset < PAGE_SIZE
    case Sync(p) => p < n
    case Flush(p) => p < n
    case SetRoot(p) => p < Limit(WORD)
  }

  function CountAfter(op: Op, n: nat): nat {
    if op.Allocate? then n + 1 else n
  }

  predicate LegalRun(ops: seq<Op>, n: nat) {
    |ops| == 0 || (Legal(ops[0], n) && LegalRun(ops[1..], CountAfter(ops[0], n)))
  }

  /** What an operation does to the plain array; a new page has arbitrary bytes. */
  ghost predicate Stepped(s: Store, op: Op, s': Store) {
    match op
    case Allocate =>
      && s'.rootPid == s.rootPid && |s'.contents| == |s.contents| + 1 && s'.contents[..|s.contents|] == s.contents
      && |s'.contents[|s.contents|]| == PAGE_SIZE
    case Get(_) => s' == s
    case Write(p, offset, b) =>
      && s'.rootPid == s.rootPid && p < |s.contents| == |s'.contents| && offset < |s.contents[p]| == |s'.contents[p]|
      && s'.contents[p][offset] == b
      && (forall i :: 0 <= i < |s.contents[p]| && i != offset ==> s'.contents[p][i] == s.contents[p][i])
      && (forall q :: 0 <= q < |s.contents| && q != p ==> s'.contents[q] == s.contents[q])
    case Sync(_) => s' == s
    case Flush(_) => s' == s
    case SetRoot(p) => s' == Store(p, s.contents)
  }

  method Apply(pager: BTreePager, op: Op)
    requires pager.Valid() && Legal(op, |pager.contents|)
    modifies pager, pager.file, pager.pages, pager.Repr
    ensures pager.Valid() && fresh(pager.Repr - old(pager.Repr))
            && |pager.contents| == CountAfter(op, |old(pager.contents)|)
    ensures Stepped(old(Store(pager.rootPid, pager.contents)), op, Store(pager.rootPid, pager.contents))
  {
    match op
    case Allocate =>
      var page, p := pager.AllocatePage();
      assert pager.contents[p] == page[..];
    case Get(p) =>
      var _ := pager.GetPage(p);
    case Write(p, offset, b) =>
      assert pager.PageIn(p);
      pager.Poke(p, offset, b);
    case Sync(p) =>
      pager.Sync(p);
    case Flush(p) =>
      pager.FlushPage(p);
    case SetRoot(p) =>
      pager.SetRootPage(p);
  }

  function CountAfterAll(ops: seq<Op>, n: nat): nat {
    if |ops| == 0 then n else CountAfterAll(ops[1..], CountAfter(ops[0], n))
  }

  predicate LegalSessions(sessions: seq<seq<Op>>, n: nat) {
    |sessions| == 0 || (LegalRun(sessions[0], n) && LegalSessions(sessions[1..], CountAfterAll(sessions[0], n)))
  }

  /** The states of the plain array before, between and after the operations. */
  ghost predicate IsTrace(trace: seq<Store>, ops: seq<Op>) {
    |trace| == |ops| + 1 && forall i :: 0 <= i < |ops| ==> Stepped(trace[i], ops[i], trace[i + 1])
  }

  /** Any interleaving of operations acts on the plain array, and closing leaves a file that holds its last state. */
  method Session(pager: BTreePager, ops: seq<Op>) returns (ghost trace: seq<Store>)
    requires pager.Valid() && LegalRun(ops, |pager.contents|)
    modifies pager, pager.file, pager.pages, pager.Repr
    ensures IsTrace(trace, ops) && trace[0] == old(Store(pager.rootPid, pager.contents))
    ensures |trace[|ops|].contents| == CountAfterAll(ops, |old(pager.contents)|)
    ensures Persisted(pager.file.data, trace[|ops|].rootPid, trace[|ops|].contents)
  {
    trace := [Store(pager.rootPid, pager.contents)];
    var i := 0;
    while i < |ops|
      invariant i <= |ops| && pager.Valid() && fresh(pager.Repr - old(pager.Repr))
      invariant LegalRun(ops[i..], |pager.contents|)
      invariant CountAfterAll(ops[i..], |pager.contents|) == CountAfterAll(ops, |old(pager.contents)|)
      invariant IsTrace(trace, ops[..i]) && trace[0] == old(Store(pager.rootPid, pager.contents))
      invariant trace[i] == Store(pager.rootPid, pager.contents)
    {
      assert ops[i..][1..] == ops[i + 1..] && ops[i..][0] == ops[i];
      Apply(pager, ops[i]);
      trace := trace + [Store(pager.rootPid, pager.contents)];
      assert ops[..i + 1] == ops[..i] + [ops[i]];
      i := i + 1;
    }
    assert ops[..i] == ops;
    pager.Close();
  }

  /** What the sessions before `i` leave behind. */
  ghost function StoreBefore(traces: seq<seq<Store>>, i: nat): Store
    requires i <= |traces|
  {
    if i == 0 || |traces[i - 1]| == 0 then Store(0, []) else traces[i - 1][|traces[i - 1]| - 1]
  }

  /** Session `i` starts with what the one before left and follows the plain array from there. */
  ghost predicate SessionOk(traces: seq<seq<Store>>, sessions: seq<seq<Op>>, i: nat)
    requires i < |traces| && i < |sessions|
  {
    IsTrace(traces[i], sessions[i]) && traces[i][0] == StoreBefore(traces, i)
  }

  ghost predicate IsHistory(traces: seq<seq<Store>>, sessions: seq<seq<Op>>) {
    |traces| == |sessions| && forall i :: 0 <= i < |sessions| ==> SessionOk(traces, sessions, i)
  }

  lemma HistoryGrows(traces: seq<seq<Store>>, sessions: seq<seq<Op>>, trace: seq<Store>, ops: seq<Op>)
    requires IsHistory(traces, sessions) && IsTrace(trace, ops) && trace[0] == StoreBefore(traces, |traces|)
    ensures IsHistory(traces + [trace], sessions + [ops]) && StoreBefore(traces + [trace], |traces| + 1) == trace[|ops|]
  {
    var ts, ss := traces + [trace], sessions + [ops];
    forall i | 0 <= i < |ss| ensures SessionOk(ts, ss, i) {
      assert i < |sessions| ==> SessionOk(traces, sessions, i);
    }
  }

  /**
   * Over any sessions from a new file, each one starts with the array and the root id that the one before ended with.
   */
  method RunAndReopen(f: File, sessions: seq<seq<Op>>) returns (reopened: BTreePager, ghost traces: seq<seq<Store>>)
    requires LegalSessions(sessions, 0)
    modifies f
    ensures IsHistory(traces, sessions)
    ensures fresh(reopened) && reopened.Valid()
    ensures Store(reopened.rootPid, reopened.contents) == StoreBefore(traces, |sessions|)
  {
    var pager := new BTreePager.Create(f);
    traces := [];
    var i := 0;
    while i < |sessions|
      invariant i <= |sessions| && pager.Valid() && pager.file == f
      invariant fresh(pager) && fresh(pager.Repr) && fresh(pager.pages)
      invariant LegalSessions(sessions[i..], |pager.contents|)
      invariant IsHistory(traces, sessions[..i])
      invariant Store(pager.rootPid, pager.contents) == StoreBefore(traces, i)
    {
      assert sessions[i..][1..] == sessions[i + 1..] && sessions[i..][0] == sessions[i];
      ghost var trace := Session(pager, sessions[i]);
      ghost var last := trace[|sessions[i]|];
      HistoryGrows(traces, sessions[..i], trace, sessions[i]);
      assert sessions[..i + 1] == sessions[..i] + [sessions[i]];
      traces := traces + [trace];
      pager := new BTreePager.Open(f, last.rootPid, last.contents);
      i := i + 1;
    }
    assert sessions[..i] == sessions;
    reopened := pager;
  }
}
