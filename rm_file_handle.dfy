/**
 * The record file: fixed-width records in slotted pages.  Page 0 holds the
 * file header; every data page has a header (record count, next free page),
 * a slot bitmap and the slots.  The file header heads an intrusive list of
 * the pages that have a free slot, linked through the pages' next-free fields.
 * Pages are held as values in a map from page number; the buffer pool is
 * seen only through the pins and unpins the handle asks of it.
 */
module Record {
  import opened Common
  import opened Bitmap

  /** RM_NO_FREE_PAGE: end of the free-page list. */
  const RM_NO_FREE_PAGE: int := -1

  /** A record's position: page number and slot number. */
  datatype Rid = Rid(pageNo: int, slotNo: int)

  /** The file header: record width, slots per page, page count (header page included) and free-list head. */
  datatype FileHdr = FileHdr(recordSize: nat, numRecordsPerPage: nat, numPages: int, firstFreePageNo: int)

  /** A data page: its header fields, its bitmap and its slots. */
  datatype Page = Page(numRecords: int, nextFreePageNo: int, bitmap: seq<bool>, slots: seq<seq<byte>>)

  datatype Error = RecordNotExist(rid: Rid) | FetchFailed(pageNo: int) | NewPageFailed

  /** A request the handle makes of the buffer pool that gains or drops a pin. */
  datatype BpmCall = Fetch(pageNo: int) | NewPage(pageNo: int) | Unpin(pageNo: int, dirty: bool)

  /** The change one request makes to the pin count of page `p`. */
  function Delta(c: BpmCall, p: int): int
  {
    match c
    case Fetch(q) => if q == p then 1 else 0
    case NewPage(q) => if q == p then 1 else 0
    case Unpin(q, _) => if q == p then -1 else 0
  }

  /** The pins on page `p` that a sequence of requests leaves behind. */
  function Pins(log: seq<BpmCall>, p: int): int
    decreases |log|
  {
    if log == [] then 0 else Pins(log[..|log| - 1], p) + Delta(log[|log| - 1], p)
  }

  lemma {:induction false} PinsAppend(a: seq<BpmCall>, b: seq<BpmCall>, p: int)
    ensures Pins(a + b, p) == Pins(a, p) + Pins(b, p)
    decreases |b|
  {
    if b == [] {
      assert a + b == a;
    } else {
      assert (a + b)[..|a + b| - 1] == a + b[..|b| - 1];
      PinsAppend(a, b[..|b| - 1], p);
    }
  }

  /** A pin followed by an unpin of the same page leaves every page's pin count as it was. */
  lemma SessionBalanced(log: seq<BpmCall>, p: int, dirty: bool, q: int)
    ensures Pins(log + [Fetch(p), Unpin(p, dirty)], q) == Pins(log, q)
    ensures Pins(log + [NewPage(p), Unpin(p, dirty)], q) == Pins(log, q)
  {
    PinsAppend(log, [Fetch(p), Unpin(p, dirty)], q);
    PinsAppend(log, [NewPage(p), Unpin(p, dirty)], q);
    assert [Fetch(p), Unpin(p, dirty)][..1] == [Fetch(p)];
    assert [NewPage(p), Unpin(p, dirty)][..1] == [NewPage(p)];
    assert [Fetch(p)][..0] == [] && [NewPage(p)][..0] == [];
    assert Pins([Fetch(p)], q) == Delta(Fetch(p), q);
    assert Pins([NewPage(p)], q) == Delta(NewPage(p), q);
    assert Pins([Fetch(p), Unpin(p, dirty)], q) == Pins([Fetch(p)], q) + Delta(Unpin(p, dirty), q);
    assert Pins([NewPage(p), Unpin(p, dirty)], q) == Pins([NewPage(p)], q) + Delta(Unpin(p, dirty), q);
  }

  /** A page with no records, the given next-free field, all bits clear and zeroed slots. */
  function Blank(hdr: FileHdr, next: int): Page
  {
    Page(0, next, seq(hdr.numRecordsPerPage, _ => false), seq(hdr.numRecordsPerPage, _ => Zeros(hdr.recordSize)))
  }

  /** What a page beyond the end of the file reads as: all bytes zero. */
  function ZeroPage(hdr: FileHdr): Page
  {
    Blank(hdr, 0)
  }

  /** A page as create_new_page_handle initialises it. */
  function EmptyPage(hdr: FileHdr): Page
  {
    Blank(hdr, RM_NO_FREE_PAGE)
  }

  /** A page has a bit and a slot of the record width per slot, and counts its set bits. */
  ghost predicate WellFormed(pg: Page, hdr: FileHdr)
  {
    && |pg.bitmap| == hdr.numRecordsPerPage && |pg.slots| == hdr.numRecordsPerPage
    && (forall i :: 0 <= i < |pg.slots| ==> |pg.slots[i]| == hdr.recordSize)
    && pg.numRecords == Count(pg.bitmap)
  }

  lemma BlankWellFormed(hdr: FileHdr, next: int)
    ensures WellFormed(Blank(hdr, next), hdr)
  {
    CountCleared(hdr.numRecordsPerPage);
  }

  /**
   * `chain` is the free-page list read from the header: distinct pages, each
   * with a free slot, linked through their next-free fields and ended by
   * RM_NO_FREE_PAGE.
   */
  ghost predicate FreeChain(hdr: FileHdr, pages: map<int, Page>, chain: seq<int>)
  {
    && NoDup(chain)
    && (forall i :: 0 <= i < |chain| ==>
          chain[i] in pages && pages[chain[i]].numRecords < hdr.numRecordsPerPage)
    && hdr.firstFreePageNo == (if chain == [] then RM_NO_FREE_PAGE else chain[0])
    && (forall i :: 0 <= i < |chain| - 1 ==> pages[chain[i]].nextFreePageNo == chain[i + 1])
    && (chain != [] ==> pages[chain[|chain| - 1]].nextFreePageNo == RM_NO_FREE_PAGE)
  }

  /** The record file's invariant: data pages 1 .. numPages-1, all well formed, and a sound free list. */
  ghost predicate FileInv(hdr: FileHdr, pages: map<int, Page>, chain: seq<int>)
  {
    && hdr.numRecordsPerPage >= 1
    && hdr.numPages >= 1
    && (forall p :: p in pages <==> 1 <= p < hdr.numPages)
    && (forall p :: p in pages ==> WellFormed(pages[p], hdr))
    && FreeChain(hdr, pages, chain)
  }

  /** A second update of the same key overrides the first. */
  lemma UpdateTwice(m: map<int, Page>, k: int, a: Page, b: Page)
    ensures m[k := a][k := b] == m[k := b]
  {
  }

  /** The page fetch_page_handle sees for page number `p`. */
  function PageAt(hdr: FileHdr, pages: map<int, Page>, p: int): Page
  {
    if p in pages then pages[p] else ZeroPage(hdr)
  }

  /** Set bit `slot`, copy `buf` into the slot and count the record. */
  function InsertInto(pg: Page, slot: int, buf: seq<byte>): Page
    requires 0 <= slot < |pg.bitmap| && slot < |pg.slots|
  {
    pg.(numRecords := pg.numRecords + 1, bitmap := pg.bitmap[slot := true], slots := pg.slots[slot := buf])
  }

  /** Reset bit `slot` and uncount the record; the slot's bytes stay. */
  function DeleteFrom(pg: Page, slot: int): Page
    requires 0 <= slot < |pg.bitmap|
  {
    pg.(numRecords := pg.numRecords - 1, bitmap := pg.bitmap[slot := false])
  }

  /** Overwrite the bytes of slot `slot`. */
  function UpdateIn(pg: Page, slot: int, buf: seq<byte>): Page
    requires 0 <= slot < |pg.slots|
  {
    pg.(slots := pg.slots[slot := buf])
  }

  lemma InsertIntoWellFormed(pg: Page, hdr: FileHdr, slot: int, buf: seq<byte>)
    requires WellFormed(pg, hdr) && 0 <= slot < |pg.bitmap| && !pg.bitmap[slot] && |buf| == hdr.recordSize
    ensures WellFormed(InsertInto(pg, slot, buf), hdr)
    ensures InsertInto(pg, slot, buf).numRecords <= hdr.numRecordsPerPage
  {
    CountSet(pg.bitmap, slot);
  }

  lemma DeleteFromWellFormed(pg: Page, hdr: FileHdr, slot: int)
    requires WellFormed(pg, hdr) && 0 <= slot < |pg.bitmap| && pg.bitmap[slot]
    ensures WellFormed(DeleteFrom(pg, slot), hdr)
    ensures DeleteFrom(pg, slot).numRecords < hdr.numRecordsPerPage
  {
    CountReset(pg.bitmap, slot);
  }

  /** The page number insert_record writes to: the free-list head, else the page a new page gets. */
  function TargetPageNo(hdr: FileHdr): int
  {
    if hdr.firstFreePageNo != RM_NO_FREE_PAGE then hdr.firstFreePageNo else hdr.numPages
  }

  /** The page create_page_handle hands to insert_record. */
  function TargetPage(hdr: FileHdr, pages: map<int, Page>): Page
  {
    if hdr.firstFreePageNo != RM_NO_FREE_PAGE then PageAt(hdr, pages, hdr.firstFreePageNo) else EmptyPage(hdr)
  }

  /** The page create_page_handle hands out has a clear bit for first_bit to find. */
  predicate Insertable(hdr: FileHdr, pages: map<int, Page>)
  {
    var pg := TargetPage(hdr, pages);
    FirstClear(pg.bitmap) < |pg.bitmap| && |pg.slots| == |pg.bitmap|
  }

  /** The header after create_page_handle: a new page is counted. */
  function HandedOutHdr(hdr: FileHdr): FileHdr
  {
    if hdr.firstFreePageNo == RM_NO_FREE_PAGE then hdr.(numPages := hdr.numPages + 1) else hdr
  }

  /**
   * insert_record(buf): the new header, the new pages and the returned
   * position.  The record goes in the lowest clear slot of the target page;
   * when that fills the page and the page is the free-list head, the head
   * moves on to the page's next-free field.
   */
  function InsertOutcome(hdr: FileHdr, pages: map<int, Page>, buf: seq<byte>): (r: (FileHdr, map<int, Page>, Rid))
    requires Insertable(hdr, pages)
    ensures r.2.pageNo == TargetPageNo(hdr) && r.2.pageNo in r.1
    ensures GetOutcome(r.0, r.1, r.2) == Ok(buf)
    ensures r.0.numPages == HandedOutHdr(hdr).numPages
    ensures forall q :: q in pages && q != r.2.pageNo ==> q in r.1 && r.1[q] == pages[q]
  {
    var p := TargetPageNo(hdr);
    var hdr1 := HandedOutHdr(hdr);
    var pg := TargetPage(hdr, pages);
    var slot := FirstClear(pg.bitmap);
    var pg' := InsertInto(pg, slot, buf);
    var hdr2 :=
      if pg'.numRecords == hdr.numRecordsPerPage && hdr1.firstFreePageNo == p
      then hdr1.(firstFreePageNo := pg'.nextFreePageNo)
      else hdr1;
    (hdr2, pages[p := pg'], Rid(p, slot))
  }

  /** The free-page list after insert_record: the head drops out when it fills. */
  ghost function InsertChain(hdr: FileHdr, pages: map<int, Page>, chain: seq<int>): seq<int>
  {
    if chain != [] && PageAt(hdr, pages, chain[0]).numRecords + 1 == hdr.numRecordsPerPage then chain[1..] else chain
  }

  /** get_record: the slot's bytes when its bit is set. */
  function GetOutcome(hdr: FileHdr, pages: map<int, Page>, rid: Rid): (r: Result<seq<byte>, Error>)
    ensures r.Err? ==> r.error == RecordNotExist(rid)
    ensures rid.pageNo !in pages ==> r.Err?
    ensures r.Ok? ==> 0 <= rid.slotNo < |PageAt(hdr, pages, rid.pageNo).bitmap| && PageAt(hdr, pages, rid.pageNo).bitmap[rid.slotNo]
  {
    var pg := PageAt(hdr, pages, rid.pageNo);
    if 0 <= rid.slotNo < |pg.bitmap| && rid.slotNo < |pg.slots| && pg.bitmap[rid.slotNo]
    then Ok(pg.slots[rid.slotNo])
    else Err(RecordNotExist(rid))
  }

  /**
   * delete_record: reset the bit; a page that was full goes on the front of
   * the free-page list.
   */
  function DeleteOutcome(hdr: FileHdr, pages: map<int, Page>, rid: Rid): (r: Result<(FileHdr, map<int, Page>), Error>)
    ensures r.Err? ==> r.error == RecordNotExist(rid)
    ensures rid.pageNo !in pages ==> r.Err?
    ensures r.Ok? ==> GetOutcome(r.value.0, r.value.1, rid).Err?
    ensures r.Ok? ==> r.value.0 == hdr || r.value.0 == hdr.(firstFreePageNo := rid.pageNo)
    ensures r.Ok? ==> forall q :: q in pages && q != rid.pageNo ==> q in r.value.1 && r.value.1[q] == pages[q]
  {
    var p := rid.pageNo;
    var pg := PageAt(hdr, pages, p);
    if !(0 <= rid.slotNo < |pg.bitmap|) || !pg.bitmap[rid.slotNo] then Err(RecordNotExist(rid))
    else
      var pg1 := DeleteFrom(pg, rid.slotNo);
      if pg.numRecords == hdr.numRecordsPerPage
      then Ok((hdr.(firstFreePageNo := p), pages[p := pg1.(nextFreePageNo := hdr.firstFreePageNo)]))
      else Ok((hdr, pages[p := pg1]))
  }

  /** The free-page list after delete_record. */
  ghost function DeleteChain(hdr: FileHdr, pages: map<int, Page>, chain: seq<int>, rid: Rid): seq<int>
  {
    if DeleteOutcome(hdr, pages, rid).Ok? && PageAt(hdr, pages, rid.pageNo).numRecords == hdr.numRecordsPerPage
    then [rid.pageNo] + chain
    else chain
  }

  /** update_record: overwrite the slot when its bit is set. */
  function UpdateOutcome(hdr: FileHdr, pages: map<int, Page>, rid: Rid, buf: seq<byte>): (r: Result<map<int, Page>, Error>)
    ensures r.Ok? <==> GetOutcome(hdr, pages, rid).Ok?
    ensures r.Err? ==> r.error == RecordNotExist(rid)
    ensures r.Ok? ==> GetOutcome(hdr, r.value, rid) == Ok(buf)
    ensures r.Ok? ==> forall q :: q in pages && q != rid.pageNo ==> q in r.value && r.value[q] == pages[q]
  {
    var pg := PageAt(hdr, pages, rid.pageNo);
    if 0 <= rid.slotNo < |pg.bitmap| && rid.slotNo < |pg.slots| && pg.bitmap[rid.slotNo]
    then Ok(pages[rid.pageNo := UpdateIn(pg, rid.slotNo, buf)])
    else Err(RecordNotExist(rid))
  }

  // Free-page list bookkeeping.

  /** Changing a page off the list keeps the list. */
  lemma ChainUpdateOutside(hdr: FileHdr, pages: map<int, Page>, chain: seq<int>, p: int, pg: Page)
    requires FreeChain(hdr, pages, chain) && p !in chain
    ensures FreeChain(hdr, pages[p := pg], chain)
  {
    assert forall i :: 0 <= i < |chain| ==> chain[i] != p;
  }

  /** Changing a listed page, keeping its link and a free slot, keeps the list. */
  lemma ChainUpdateInside(hdr: FileHdr, pages: map<int, Page>, chain: seq<int>, p: int, pg: Page)
    requires FreeChain(hdr, pages, chain) && p in pages
    requires pg.nextFreePageNo == pages[p].nextFreePageNo && pg.numRecords < hdr.numRecordsPerPage
    ensures FreeChain(hdr, pages[p := pg], chain)
  {
  }

  /** Unlinking the head: the header takes over the head's link. */
  lemma ChainPop(hdr: FileHdr, pages: map<int, Page>, chain: seq<int>)
    requires FreeChain(hdr, pages, chain) && chain != []
    ensures FreeChain(hdr.(firstFreePageNo := pages[chain[0]].nextFreePageNo), pages, chain[1..])
  {
    HeadNotInTailInt(chain);
    assert forall i :: 0 <= i < |chain[1..]| ==> chain[1..][i] == chain[i + 1];
  }

  /** Linking a page with a free slot in front of the head. */
  lemma ChainPush(hdr: FileHdr, pages: map<int, Page>, chain: seq<int>, p: int)
    requires FreeChain(hdr, pages, chain) && p in pages && p !in chain
    requires pages[p].numRecords < hdr.numRecordsPerPage
    ensures FreeChain(hdr.(firstFreePageNo := p), pages[p := pages[p].(nextFreePageNo := hdr.firstFreePageNo)], [p] + chain)
  {
    var pages' := pages[p := pages[p].(nextFreePageNo := hdr.firstFreePageNo)];
    var chain' := [p] + chain;
    assert forall i :: 0 <= i < |chain| ==> chain[i] != p;
    assert forall i :: 1 <= i < |chain'| ==> chain'[i] == chain[i - 1];
    assert NoDup(chain');
  }

  lemma HeadNotInTailInt(s: seq<int>)
    requires NoDup(s) && s != []
    ensures s[0] !in s[1..] && NoDup(s[1..])
  {
    assert forall i :: 0 <= i < |s[1..]| ==> s[1..][i] == s[i + 1];
  }

  // Properties of the operations.

  /** Adding an empty page numbered num_pages and counting it keeps the invariant and the free-page list. */
  lemma NewPagePreserves(hdr: FileHdr, pages: map<int, Page>, chain: seq<int>)
    requires FileInv(hdr, pages, chain)
    ensures hdr.numPages !in pages
    ensures FileInv(hdr.(numPages := hdr.numPages + 1), pages[hdr.numPages := EmptyPage(hdr)], chain)
  {
    var p := hdr.numPages;
    BlankWellFormed(hdr, RM_NO_FREE_PAGE);
    assert p !in chain by {
      assert forall i :: 0 <= i < |chain| ==> chain[i] in pages;
    }
    ChainUpdateOutside(hdr, pages, chain, p, EmptyPage(hdr));
  }

  /** Under the invariant, the page create_page_handle hands out always has a clear slot. */
  lemma FileInvInsertable(hdr: FileHdr, pages: map<int, Page>, chain: seq<int>)
    requires FileInv(hdr, pages, chain)
    ensures Insertable(hdr, pages)
  {
    var pg := TargetPage(hdr, pages);
    if hdr.firstFreePageNo == RM_NO_FREE_PAGE {
      BlankWellFormed(hdr, RM_NO_FREE_PAGE);
    } else {
      assert chain[0] in pages;
    }
    assert WellFormed(pg, hdr);
    RoomMeansClearBit(pg.bitmap);
  }

  /** insert_record keeps the invariant. */
  lemma InsertPreserves(hdr: FileHdr, pages: map<int, Page>, chain: seq<int>, buf: seq<byte>)
    requires FileInv(hdr, pages, chain) && |buf| == hdr.recordSize
    requires Insertable(hdr, pages)
    ensures var (hdr', pages', _) := InsertOutcome(hdr, pages, buf);
      FileInv(hdr', pages', InsertChain(hdr, pages, chain))
  {
    var (hdr', pages', rid) := InsertOutcome(hdr, pages, buf);
    var p := TargetPageNo(hdr);
    var pg := TargetPage(hdr, pages);
    var slot := FirstClear(pg.bitmap);
    var pg' := InsertInto(pg, slot, buf);
    if hdr.firstFreePageNo == RM_NO_FREE_PAGE {
      BlankWellFormed(hdr, RM_NO_FREE_PAGE);
      InsertIntoWellFormed(pg, hdr, slot, buf);
      assert p !in pages;
      ChainUpdateOutside(hdr, pages, chain, p, pg');
      assert FreeChain(hdr', pages', chain);
    } else {
      assert p == chain[0] && p in pages;
      InsertIntoWellFormed(pg, hdr, slot, buf);
      if pg'.numRecords == hdr.numRecordsPerPage {
        ChainPop(hdr, pages, chain);
        HeadNotInTailInt(chain);
        ChainUpdateOutside(hdr.(firstFreePageNo := pages[p].nextFreePageNo), pages, chain[1..], p, pg');
      } else {
        ChainUpdateInside(hdr, pages, chain, p, pg');
      }
    }
  }

  /** An inserted record reads back, and the slot it took held no record before. */
  lemma InsertThenGet(hdr: FileHdr, pages: map<int, Page>, chain: seq<int>, buf: seq<byte>)
    requires FileInv(hdr, pages, chain) && Insertable(hdr, pages)
    ensures var (hdr', pages', rid) := InsertOutcome(hdr, pages, buf);
      && 1 <= rid.pageNo && 0 <= rid.slotNo < hdr.numRecordsPerPage
      && GetOutcome(hdr, pages, rid) == Err(RecordNotExist(rid))
      && GetOutcome(hdr', pages', rid) == Ok(buf)
  {
    var p := TargetPageNo(hdr);
    if hdr.firstFreePageNo != RM_NO_FREE_PAGE {
      assert p == chain[0] && p in pages;
      assert WellFormed(pages[p], hdr);
    }
  }

  /** insert_record changes no other record. */
  lemma InsertKeepsOthers(hdr: FileHdr, pages: map<int, Page>, chain: seq<int>, buf: seq<byte>, other: Rid)
    requires FileInv(hdr, pages, chain) && Insertable(hdr, pages)
    requires other != InsertOutcome(hdr, pages, buf).2
    ensures var (hdr', pages', _) := InsertOutcome(hdr, pages, buf);
      GetOutcome(hdr', pages', other) == GetOutcome(hdr, pages, other)
  {
    FileInvInsertable(hdr, pages, chain);
    var p := TargetPageNo(hdr);
    if other.pageNo == p && hdr.firstFreePageNo == RM_NO_FREE_PAGE {
      assert p !in pages;
      assert other.slotNo != 0;
      BlankWellFormed(hdr, RM_NO_FREE_PAGE);
      assert FirstClear(EmptyPage(hdr).bitmap) == 0;
    }
  }

  /**
   * New pages never join the free-page list: with the list empty, an insert
   * goes to a new page, and the list stays empty even when that page has room.
   */
  lemma NewPageStaysOffFreeList(hdr: FileHdr, pages: map<int, Page>, chain: seq<int>, buf: seq<byte>)
    requires FileInv(hdr, pages, chain) && hdr.firstFreePageNo == RM_NO_FREE_PAGE
    ensures Insertable(hdr, pages)
    ensures var (hdr', _, rid) := InsertOutcome(hdr, pages, buf);
      && rid == Rid(hdr.numPages, 0)
      && hdr'.numPages == hdr.numPages + 1
      && hdr'.firstFreePageNo == RM_NO_FREE_PAGE
  {
    FileInvInsertable(hdr, pages, chain);
  }

  /** Hence two inserts into a file without free pages take two new pages, whatever the page capacity. */
  lemma TwoInsertsTwoPages(hdr: FileHdr, pages: map<int, Page>, chain: seq<int>, a: seq<byte>, b: seq<byte>)
    requires FileInv(hdr, pages, chain) && hdr.firstFreePageNo == RM_NO_FREE_PAGE
    requires |a| == hdr.recordSize
    ensures Insertable(hdr, pages)
    ensures var (hdr1, pages1, rid1) := InsertOutcome(hdr, pages, a);
      && Insertable(hdr1, pages1)
      && rid1.pageNo == hdr.numPages
      && InsertOutcome(hdr1, pages1, b).2.pageNo == hdr.numPages + 1
  {
    NewPageStaysOffFreeList(hdr, pages, chain, a);
    var (hdr1, pages1, rid1) := InsertOutcome(hdr, pages, a);
    InsertPreserves(hdr, pages, chain, a);
    NewPageStaysOffFreeList(hdr1, pages1, InsertChain(hdr, pages, chain), b);
  }

  /** delete_record keeps the invariant. */
  lemma DeletePreserves(hdr: FileHdr, pages: map<int, Page>, chain: seq<int>, rid: Rid)
    requires FileInv(hdr, pages, chain)
    ensures DeleteOutcome(hdr, pages, rid).Ok? ==>
      var (hdr', pages') := DeleteOutcome(hdr, pages, rid).value;
      FileInv(hdr', pages', DeleteChain(hdr, pages, chain, rid))
  {
    var p := rid.pageNo;
    var pg := PageAt(hdr, pages, p);
    if DeleteOutcome(hdr, pages, rid).Ok? {
      assert p in pages;
      var pg1 := DeleteFrom(pg, rid.slotNo);
      DeleteFromWellFormed(pg, hdr, rid.slotNo);
      if pg.numRecords == hdr.numRecordsPerPage {
        assert p !in chain;
        ChainUpdateOutside(hdr, pages, chain, p, pg1);
        ChainPush(hdr, pages[p := pg1], chain, p);
        assert pages[p := pg1][p := pg1.(nextFreePageNo := hdr.firstFreePageNo)]
          == pages[p := pg1.(nextFreePageNo := hdr.firstFreePageNo)];
      } else {
        if p in chain {
          ChainUpdateInside(hdr, pages, chain, p, pg1);
        } else {
          ChainUpdateOutside(hdr, pages, chain, p, pg1);
        }
      }
    }
  }

  /** A deleted record no longer reads; deleting fails exactly when there is no record to delete. */
  lemma DeleteThenGet(hdr: FileHdr, pages: map<int, Page>, chain: seq<int>, rid: Rid)
    requires FileInv(hdr, pages, chain) && 0 <= rid.slotNo < hdr.numRecordsPerPage
    ensures DeleteOutcome(hdr, pages, rid).Err? <==> GetOutcome(hdr, pages, rid).Err?
    ensures DeleteOutcome(hdr, pages, rid).Ok? ==>
      var (hdr', pages') := DeleteOutcome(hdr, pages, rid).value;
      GetOutcome(hdr', pages', rid) == Err(RecordNotExist(rid))
  {
    if rid.pageNo in pages {
      assert WellFormed(pages[rid.pageNo], hdr);
    }
  }

  /**
   * Deleting a record from a full page puts the page at the head of the
   * free-page list, so the next insert takes exactly the slot just freed.
   */
  lemma DeleteFullThenInsert(hdr: FileHdr, pages: map<int, Page>, chain: seq<int>, rid: Rid, buf: seq<byte>)
    requires FileInv(hdr, pages, chain)
    requires rid.pageNo in pages && pages[rid.pageNo].numRecords == hdr.numRecordsPerPage
    requires 0 <= rid.slotNo < hdr.numRecordsPerPage
    ensures DeleteOutcome(hdr, pages, rid).Ok?
    ensures var (hdr', pages') := DeleteOutcome(hdr, pages, rid).value;
      && hdr'.firstFreePageNo == rid.pageNo
      && Insertable(hdr', pages')
      && InsertOutcome(hdr', pages', buf).2 == rid
  {
    var pg := pages[rid.pageNo];
    assert WellFormed(pg, hdr);
    CountFull(pg.bitmap);
    DeletePreserves(hdr, pages, chain, rid);
    var (hdr', pages') := DeleteOutcome(hdr, pages, rid).value;
    FileInvInsertable(hdr', pages', DeleteChain(hdr, pages, chain, rid));
    OnlyClearBit(pg.bitmap[rid.slotNo := false], rid.slotNo);
  }

  /** update_record keeps the invariant, changes only the slot's bytes and the new bytes read back. */
  lemma UpdatePreserves(hdr: FileHdr, pages: map<int, Page>, chain: seq<int>, rid: Rid, buf: seq<byte>)
    requires FileInv(hdr, pages, chain) && |buf| == hdr.recordSize
    ensures UpdateOutcome(hdr, pages, rid, buf).Ok? <==> GetOutcome(hdr, pages, rid).Ok?
    ensures UpdateOutcome(hdr, pages, rid, buf).Ok? ==>
      var pages' := UpdateOutcome(hdr, pages, rid, buf).value;
      && FileInv(hdr, pages', chain)
      && GetOutcome(hdr, pages', rid) == Ok(buf)
      && pages'[rid.pageNo].bitmap == pages[rid.pageNo].bitmap
      && pages'[rid.pageNo].numRecords == pages[rid.pageNo].numRecords
      && pages'[rid.pageNo].nextFreePageNo == pages[rid.pageNo].nextFreePageNo
  {
    var p := rid.pageNo;
    if UpdateOutcome(hdr, pages, rid, buf).Ok? {
      assert p in pages;
      var pg' := UpdateIn(pages[p], rid.slotNo, buf);
      if p in chain {
        ChainUpdateInside(hdr, pages, chain, p, pg');
      } else {
        ChainUpdateOutside(hdr, pages, chain, p, pg');
      }
    }
  }

  class RmFileHandle {
    /** fd_: the descriptor of the open record file. */
    const fd: int
    /** file_hdr_ */
    var fileHdr: FileHdr
    /** The data pages, as the buffer pool and the disk hold them. */
    var pages: map<int, Page>
    /** The free-page list that the header and the pages' links spell out. */
    ghost var freeChain: seq<int>
    /** The pins and unpins this handle has asked of the buffer pool, in order. */
    ghost var calls: seq<BpmCall>

    ghost predicate Valid()
      reads this`fileHdr, this`pages, this`freeChain
    {
      FileInv(fileHdr, pages, freeChain)
    }

    /** A handle on a file with no data pages, as the record manager creates it. */
    constructor (fd: int, recordSize: nat, numRecordsPerPage: nat)
      requires numRecordsPerPage >= 1
      ensures Valid() && this.fd == fd
      ensures fileHdr == FileHdr(recordSize, numRecordsPerPage, 1, RM_NO_FREE_PAGE)
      ensures pages == map[] && freeChain == [] && calls == []
    {
      this.fd := fd;
      fileHdr := FileHdr(recordSize, numRecordsPerPage, 1, RM_NO_FREE_PAGE);
      pages := map[];
      freeChain := [];
      calls := [];
    }

    /** fetch_page_handle: pin a page; `frameAvailable` says whether the buffer pool finds a frame. */
    method FetchPageHandle(pageNo: int, frameAvailable: bool) returns (r: Result<Page, Error>)
      modifies this`calls
      ensures frameAvailable ==> r == Ok(PageAt(fileHdr, pages, pageNo)) && calls == old(calls) + [Fetch(pageNo)]
      ensures !frameAvailable ==> r == Err(FetchFailed(pageNo)) && calls == old(calls)
    {
      if !frameAvailable {
        return Err(FetchFailed(pageNo));
      }
      calls := calls + [Fetch(pageNo)];
      r := Ok(PageAt(fileHdr, pages, pageNo));
    }

    /**
     * create_new_page_handle: pin a new page, the next one of the file, with
     * no records, no next free page and a cleared bitmap, and count it.
     */
    method CreateNewPageHandle(frameAvailable: bool) returns (r: Result<(int, Page), Error>)
      requires Valid()
      modifies this
      ensures Valid() && freeChain == old(freeChain)
      ensures !frameAvailable ==>
        r == Err(NewPageFailed) && fileHdr == old(fileHdr) && pages == old(pages) && calls == old(calls)
      ensures frameAvailable ==>
        var p := old(fileHdr).numPages;
        && r == Ok((p, EmptyPage(old(fileHdr))))
        && p !in old(pages)
        && fileHdr == old(fileHdr).(numPages := p + 1)
        && pages == old(pages)[p := EmptyPage(old(fileHdr))]
        && calls == old(calls) + [NewPage(p)]
    {
      if !frameAvailable {
        return Err(NewPageFailed);
      }
      var p := fileHdr.numPages;
      calls := calls + [NewPage(p)];
      NewPagePreserves(fileHdr, pages, freeChain);
      var pg := EmptyPage(fileHdr);
      pages := pages[p := pg];
      fileHdr := fileHdr.(numPages := p + 1);
      r := Ok((p, pg));
    }

    /** create_page_handle: the free-list head if there is one, else a new page. */
    method CreatePageHandle(frameAvailable: bool) returns (r: Result<(int, Page), Error>)
      requires Valid()
      modifies this
      ensures Valid() && freeChain == old(freeChain)
      ensures !frameAvailable ==>
        && r == Err(if old(fileHdr).firstFreePageNo == RM_NO_FREE_PAGE then NewPageFailed
                    else FetchFailed(old(fileHdr).firstFreePageNo))
        && fileHdr == old(fileHdr) && pages == old(pages) && calls == old(calls)
      ensures frameAvailable ==>
        var p := TargetPageNo(old(fileHdr));
        && r == Ok((p, TargetPage(old(fileHdr), old(pages))))
        && fileHdr == HandedOutHdr(old(fileHdr))
        && pages == (if old(fileHdr).firstFreePageNo == RM_NO_FREE_PAGE
                     then old(pages)[p := EmptyPage(old(fileHdr))] else old(pages))
        && calls == old(calls) + [if old(fileHdr).firstFreePageNo == RM_NO_FREE_PAGE then NewPage(p) else Fetch(p)]
    {
      if fileHdr.firstFreePageNo != RM_NO_FREE_PAGE {
        var h := FetchPageHandle(fileHdr.firstFreePageNo, frameAvailable);
        if h.Err? {
          return Err(h.error);
        }
        return Ok((fileHdr.firstFreePageNo, h.value));
      }
      r := CreateNewPageHandle(frameAvailable);
    }

    /**
     * release_page_handle: a page that has just gained a free slot goes on the
     * front of the free-page list, and is unpinned dirty.
     */
    method ReleasePageHandle(p: int)
      requires Valid() && p in pages && p !in freeChain
      requires pages[p].numRecords < fileHdr.numRecordsPerPage
      modifies this
      ensures Valid()
      ensures freeChain == [p] + old(freeChain)
      ensures pages == old(pages)[p := old(pages)[p].(nextFreePageNo := old(fileHdr).firstFreePageNo)]
      ensures fileHdr == old(fileHdr).(firstFreePageNo := p)
      ensures calls == old(calls) + [Unpin(p, true)]
    {
      ChainPush(fileHdr, pages, freeChain, p);
      pages := pages[p := pages[p].(nextFreePageNo := fileHdr.firstFreePageNo)];
      fileHdr := fileHdr.(firstFreePageNo := p);
      freeChain := [p] + freeChain;
      calls := calls + [Unpin(p, true)];
    }

    /** get_record: the record's bytes, unpinning the page clean on both exits. */
    method GetRecord(rid: Rid, frameAvailable: bool) returns (r: Result<seq<byte>, Error>)
      requires Valid() && 1 <= rid.pageNo && 0 <= rid.slotNo < fileHdr.numRecordsPerPage
      modifies this`calls
      ensures !frameAvailable ==> r == Err(FetchFailed(rid.pageNo)) && calls == old(calls)
      ensures frameAvailable ==>
        r == GetOutcome(fileHdr, pages, rid) && calls == old(calls) + [Fetch(rid.pageNo), Unpin(rid.pageNo, false)]
      ensures r.Ok? ==> |r.value| == fileHdr.recordSize
    {
      var h := FetchPageHandle(rid.pageNo, frameAvailable);
      if h.Err? {
        return Err(h.error);
      }
      var pg := h.value;
      if rid.pageNo in pages {
        assert WellFormed(pages[rid.pageNo], fileHdr);
      }
      if !pg.bitmap[rid.slotNo] {
        calls := calls + [Unpin(rid.pageNo, false)];
        return Err(RecordNotExist(rid));
      }
      r := Ok(pg.slots[rid.slotNo]);
      calls := calls + [Unpin(rid.pageNo, false)];
    }

    /**
     * insert_record(buf): write the record into the lowest clear slot of the
     * page create_page_handle hands out and unpin that page dirty.
     */
    method InsertRecord(buf: seq<byte>, frameAvailable: bool) returns (r: Result<Rid, Error>)
      requires Valid() && |buf| == fileHdr.recordSize
      modifies this
      ensures Valid()
      ensures !frameAvailable ==>
        && r == Err(if old(fileHdr).firstFreePageNo == RM_NO_FREE_PAGE then NewPageFailed
                    else FetchFailed(old(fileHdr).firstFreePageNo))
        && fileHdr == old(fileHdr) && pages == old(pages) && calls == old(calls)
      ensures frameAvailable ==>
        && Insertable(old(fileHdr), old(pages)) && r.Ok?
        && (fileHdr, pages, r.value) == InsertOutcome(old(fileHdr), old(pages), buf)
        && calls == old(calls) + [if old(fileHdr).firstFreePageNo == RM_NO_FREE_PAGE
                                  then NewPage(r.value.pageNo) else Fetch(r.value.pageNo),
                                  Unpin(r.value.pageNo, true)]
    {
      ghost var hdr0, pages0, chain0, calls0 := fileHdr, pages, freeChain, calls;
      FileInvInsertable(fileHdr, pages, freeChain);
      InsertPreserves(fileHdr, pages, freeChain, buf);
      var h := CreatePageHandle(frameAvailable);
      if h.Err? {
        return Err(h.error);
      }
      var (p, pg) := h.value;
      assert p == TargetPageNo(hdr0) && pg == TargetPage(hdr0, pages0) && fileHdr == HandedOutHdr(hdr0);
      var slot := FirstClear(pg.bitmap);
      var pg' := InsertInto(pg, slot, buf);
      if hdr0.firstFreePageNo == RM_NO_FREE_PAGE {
        UpdateTwice(pages0, p, EmptyPage(hdr0), pg');
      }
      pages := pages[p := pg'];
      if pg'.numRecords == fileHdr.numRecordsPerPage && fileHdr.firstFreePageNo == p {
        fileHdr := fileHdr.(firstFreePageNo := pg'.nextFreePageNo);
      }
      freeChain := InsertChain(hdr0, pages0, chain0);
      ghost var first := if hdr0.firstFreePageNo == RM_NO_FREE_PAGE then NewPage(p) else Fetch(p);
      assert calls == calls0 + [first];
      calls := calls + [Unpin(p, true)];
      assert calls == calls0 + [first, Unpin(p, true)];
      r := Ok(Rid(p, slot));
    }

    /**
     * delete_record: reset the record's bit and unpin the page dirty; a page
     * that was full goes on the free-page list first.
     */
    method DeleteRecord(rid: Rid, frameAvailable: bool) returns (r: Result<(), Error>)
      requires Valid() && 1 <= rid.pageNo && 0 <= rid.slotNo < fileHdr.numRecordsPerPage
      modifies this
      ensures Valid()
      ensures !frameAvailable ==>
        r == Err(FetchFailed(rid.pageNo)) && fileHdr == old(fileHdr) && pages == old(pages) && calls == old(calls)
      ensures frameAvailable ==>
        var o := DeleteOutcome(old(fileHdr), old(pages), rid);
        && (o.Err? ==>
              && r == Err(o.error) && fileHdr == old(fileHdr) && pages == old(pages)
              && calls == old(calls) + [Fetch(rid.pageNo), Unpin(rid.pageNo, false)])
        && (o.Ok? ==>
              && r == Ok(()) && (fileHdr, pages) == o.value
              && calls == old(calls) + [Fetch(rid.pageNo), Unpin(rid.pageNo, true)])
    {
      ghost var calls0 := calls;
      var p := rid.pageNo;
      var h := FetchPageHandle(p, frameAvailable);
      if h.Err? {
        return Err(h.error);
      }
      var pg := h.value;
      if p in pages {
        assert WellFormed(pages[p], fileHdr);
      }
      assert calls == calls0 + [Fetch(p)];
      if !pg.bitmap[rid.slotNo] {
        calls := calls + [Unpin(p, false)];
        assert calls == calls0 + [Fetch(p), Unpin(p, false)];
        return Err(RecordNotExist(rid));
      }
      ResetSlot(rid);
      assert calls == calls0 + [Fetch(p), Unpin(p, true)];
      r := Ok(());
    }

    /**
     * The part of delete_record after the bit check: reset the bit, put a page
     * that was full on the free-page list, and unpin the page dirty.
     */
    method ResetSlot(rid: Rid)
      requires Valid() && rid.pageNo in pages && 0 <= rid.slotNo < fileHdr.numRecordsPerPage
      requires pages[rid.pageNo].bitmap[rid.slotNo]
      modifies this
      ensures Valid()
      ensures DeleteOutcome(old(fileHdr), old(pages), rid) == Ok((fileHdr, pages))
      ensures calls == old(calls) + [Unpin(rid.pageNo, true)]
    {
      ghost var hdr0, pages0 := fileHdr, pages;
      DeletePreserves(fileHdr, pages, freeChain, rid);
      var p := rid.pageNo;
      var pg := pages[p];
      assert WellFormed(pg, fileHdr);
      var pg1 := DeleteFrom(pg, rid.slotNo);
      DeleteFromWellFormed(pg, fileHdr, rid.slotNo);
      var wasFull := pg1.numRecords + 1 == fileHdr.numRecordsPerPage;
      if wasFull {
        assert p !in freeChain;
        ChainUpdateOutside(fileHdr, pages, freeChain, p, pg1);
        pages := pages[p := pg1];
        ReleasePageHandle(p);
        UpdateTwice(pages0, p, pg1, pg1.(nextFreePageNo := hdr0.firstFreePageNo));
      } else {
        pages := pages[p := pg1];
        calls := calls + [Unpin(p, true)];
      }
    }

    /** update_record: overwrite the record's bytes and unpin the page dirty. */
    method UpdateRecord(rid: Rid, buf: seq<byte>, frameAvailable: bool) returns (r: Result<(), Error>)
      requires Valid() && 1 <= rid.pageNo && 0 <= rid.slotNo < fileHdr.numRecordsPerPage
      requires |buf| == fileHdr.recordSize
      modifies this
      ensures Valid() && fileHdr == old(fileHdr) && freeChain == old(freeChain)
      ensures !frameAvailable ==> r == Err(FetchFailed(rid.pageNo)) && pages == old(pages) && calls == old(calls)
      ensures frameAvailable ==>
        var o := UpdateOutcome(old(fileHdr), old(pages), rid, buf);
        && (o.Err? ==>
              r == Err(o.error) && pages == old(pages)
              && calls == old(calls) + [Fetch(rid.pageNo), Unpin(rid.pageNo, false)])
        && (o.Ok? ==>
              r == Ok(()) && pages == o.value
              && calls == old(calls) + [Fetch(rid.pageNo), Unpin(rid.pageNo, true)])
    {
      UpdatePreserves(fileHdr, pages, freeChain, rid, buf);
      var p := rid.pageNo;
      var h := FetchPageHandle(p, frameAvailable);
      if h.Err? {
        return Err(h.error);
      }
      var pg := h.value;
      if p in pages {
        assert WellFormed(pages[p], fileHdr);
      }
      if !pg.bitmap[rid.slotNo] {
        calls := calls + [Unpin(p, false)];
        return Err(RecordNotExist(rid));
      }
      pages := pages[p := UpdateIn(pg, rid.slotNo, buf)];
      calls := calls + [Unpin(p, true)];
      r := Ok(());
    }
  }
}
