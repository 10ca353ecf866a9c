/**
 * The forward scan over a record file: a cursor that visits the set bitmap
 * bits of pages 1 .. numPages-1 in page-then-slot order.  Page 0 holds the
 * file header and is never visited.
 */
module Scan {
  import opened Common
  import opened Record

  /** Position `r` holds a record. */
  predicate Occupied(hdr: FileHdr, pages: map<int, Page>, r: Rid)
  {
    var pg := PageAt(hdr, pages, r.pageNo);
    0 <= r.slotNo < |pg.bitmap| && pg.bitmap[r.slotNo]
  }

  /** `r` is a slot position of the file, header page included. */
  predicate InFile(hdr: FileHdr, r: Rid)
  {
    r.pageNo < hdr.numPages && 0 <= r.slotNo < hdr.numRecordsPerPage
  }

  /** `r` is at or after position (p, s) in page-then-slot order. */
  predicate AtOrAfter(r: Rid, p: int, s: int)
  {
    r.pageNo > p || (r.pageNo == p && r.slotNo >= s)
  }

  /** `a` comes strictly before `b` in page-then-slot order. */
  predicate Before(a: Rid, b: Rid)
  {
    a.pageNo < b.pageNo || (a.pageNo == b.pageNo && a.slotNo < b.slotNo)
  }

  /** `e` is strictly increasing in page-then-slot order. */
  predicate Ascending(e: seq<Rid>)
  {
    forall i, j :: 0 <= i < j < |e| ==> Before(e[i], e[j])
  }

  /** The first record at or after (p, s), searched the way next() searches. */
  function Seek(hdr: FileHdr, pages: map<int, Page>, p: int, s: int): (r: Option<Rid>)
    requires s >= 0
    ensures r.Some? ==> Occupied(hdr, pages, r.value) && AtOrAfter(r.value, p, s) && r.value.pageNo < hdr.numPages
    decreases hdr.numPages - p, hdr.numRecordsPerPage - s
  {
    if p >= hdr.numPages then None
    else if s >= hdr.numRecordsPerPage then Seek(hdr, pages, p + 1, 0)
    else if Occupied(hdr, pages, Rid(p, s)) then Some(Rid(p, s))
    else Seek(hdr, pages, p, s + 1)
  }

  /** Every record at or after (p, s), in page-then-slot order. */
  function Enumerate(hdr: FileHdr, pages: map<int, Page>, p: int, s: int): seq<Rid>
    requires s >= 0
    decreases hdr.numPages - p, hdr.numRecordsPerPage - s
  {
    if p >= hdr.numPages then []
    else if s >= hdr.numRecordsPerPage then Enumerate(hdr, pages, p + 1, 0)
    else if Occupied(hdr, pages, Rid(p, s)) then [Rid(p, s)] + Enumerate(hdr, pages, p, s + 1)
    else Enumerate(hdr, pages, p, s + 1)
  }

  /** Enumerate lists exactly the records of the file at or after (p, s). */
  lemma {:induction false} EnumerateMembers(hdr: FileHdr, pages: map<int, Page>, p: int, s: int)
    requires s >= 0
    ensures forall r :: r in Enumerate(hdr, pages, p, s) <==>
      InFile(hdr, r) && AtOrAfter(r, p, s) && Occupied(hdr, pages, r)
    decreases hdr.numPages - p, hdr.numRecordsPerPage - s
  {
    if p >= hdr.numPages {
    } else if s >= hdr.numRecordsPerPage {
      EnumerateMembers(hdr, pages, p + 1, 0);
    } else {
      EnumerateMembers(hdr, pages, p, s + 1);
    }
  }

  /** Putting an element before everything in an ascending sequence keeps it ascending. */
  lemma ConsAscending(x: Rid, rest: seq<Rid>)
    requires Ascending(rest)
    requires forall y :: y in rest ==> Before(x, y)
    ensures Ascending([x] + rest)
  {
    var e := [x] + rest;
    forall i, j | 0 <= i < j < |e|
      ensures Before(e[i], e[j])
    {
      assert e[j] == rest[j - 1];
      if i > 0 {
        assert e[i] == rest[i - 1];
      }
    }
  }

  /** Enumerate is strictly increasing in page-then-slot order. */
  lemma {:induction false} EnumerateSorted(hdr: FileHdr, pages: map<int, Page>, p: int, s: int)
    requires s >= 0
    ensures Ascending(Enumerate(hdr, pages, p, s))
    decreases hdr.numPages - p, hdr.numRecordsPerPage - s
  {
    if p >= hdr.numPages {
    } else if s >= hdr.numRecordsPerPage {
      EnumerateSorted(hdr, pages, p + 1, 0);
    } else {
      var rest := Enumerate(hdr, pages, p, s + 1);
      EnumerateSorted(hdr, pages, p, s + 1);
      if Occupied(hdr, pages, Rid(p, s)) {
        EnumerateMembers(hdr, pages, p, s + 1);
        assert forall y :: y in rest ==> AtOrAfter(y, p, s + 1);
        ConsAscending(Rid(p, s), rest);
      } else {
        assert Enumerate(hdr, pages, p, s) == rest;
      }
    }
  }

  /** Seek finds the head of Enumerate, and what follows it is the enumeration after that position. */
  lemma {:induction false} SeekEnumerate(hdr: FileHdr, pages: map<int, Page>, p: int, s: int)
    requires s >= 0
    ensures Seek(hdr, pages, p, s).None? ==> Enumerate(hdr, pages, p, s) == []
    ensures Seek(hdr, pages, p, s).Some? ==>
      var r := Seek(hdr, pages, p, s).value;
      r.slotNo >= 0 && Enumerate(hdr, pages, p, s) == [r] + Enumerate(hdr, pages, r.pageNo, r.slotNo + 1)
    decreases hdr.numPages - p, hdr.numRecordsPerPage - s
  {
    if p >= hdr.numPages {
    } else if s >= hdr.numRecordsPerPage {
      SeekEnumerate(hdr, pages, p + 1, 0);
      assert Seek(hdr, pages, p, s) == Seek(hdr, pages, p + 1, 0);
      assert Enumerate(hdr, pages, p, s) == Enumerate(hdr, pages, p + 1, 0);
    } else if Occupied(hdr, pages, Rid(p, s)) {
      assert Seek(hdr, pages, p, s) == Some(Rid(p, s));
      assert Enumerate(hdr, pages, p, s) == [Rid(p, s)] + Enumerate(hdr, pages, p, s + 1);
    } else {
      SeekEnumerate(hdr, pages, p, s + 1);
      assert Seek(hdr, pages, p, s) == Seek(hdr, pages, p, s + 1);
      assert Enumerate(hdr, pages, p, s) == Enumerate(hdr, pages, p, s + 1);
    }
  }

  /**
   * Seek returns the least record at or after (p, s), and nothing exactly
   * when there is no record at or after (p, s).
   */
  lemma SeekIsLeast(hdr: FileHdr, pages: map<int, Page>, p: int, s: int)
    requires s >= 0
    ensures Seek(hdr, pages, p, s).Some? ==>
      var r := Seek(hdr, pages, p, s).value;
      && InFile(hdr, r) && AtOrAfter(r, p, s) && Occupied(hdr, pages, r)
      && forall y :: InFile(hdr, y) && AtOrAfter(y, p, s) && Occupied(hdr, pages, y) ==> !Before(y, r)
    ensures Seek(hdr, pages, p, s).None? <==>
      forall y :: InFile(hdr, y) && AtOrAfter(y, p, s) ==> !Occupied(hdr, pages, y)
  {
    SeekEnumerate(hdr, pages, p, s);
    EnumerateMembers(hdr, pages, p, s);
    EnumerateSorted(hdr, pages, p, s);
    var e := Enumerate(hdr, pages, p, s);
    if Seek(hdr, pages, p, s).Some? {
      var r := Seek(hdr, pages, p, s).value;
      assert e[0] == r;
      forall y | InFile(hdr, y) && AtOrAfter(y, p, s) && Occupied(hdr, pages, y)
        ensures !Before(y, r)
      {
        assert y in e;
        var k :| 0 <= k < |e| && e[k] == y;
        if k > 0 {
          assert Before(e[0], e[k]);
        }
      }
    } else {
      assert forall y :: y !in e;
    }
  }

  /** A scan of the whole file visits exactly the records of pages 1 .. numPages-1, in ascending order. */
  lemma FullScan(hdr: FileHdr, pages: map<int, Page>)
    ensures var e := Enumerate(hdr, pages, 1, 0);
      && (forall r :: r in e <==>
            (1 <= r.pageNo < hdr.numPages && 0 <= r.slotNo < hdr.numRecordsPerPage && Occupied(hdr, pages, r)))
      && Ascending(e)
  {
    EnumerateMembers(hdr, pages, 1, 0);
    EnumerateSorted(hdr, pages, 1, 0);
  }

  /** Where next() resumes searching from the position `r`. */
  function Resume(r: Rid): (int, int)
  {
    if r == Rid(0, -1) then (1, 0) else (r.pageNo, r.slotNo + 1)
  }

  /** The position next() moves to from `r`. */
  function NextRid(hdr: FileHdr, pages: map<int, Page>, r: Rid): (x: Rid)
    requires Resume(r).1 >= 0
    ensures x.pageNo != -1 ==> Occupied(hdr, pages, x) && Before(r, x) && x.pageNo < hdr.numPages
    ensures hdr.numPages <= 1 ==> x == Rid(-1, r.slotNo)
  {
    if hdr.numPages <= 1 then Rid(-1, r.slotNo)
    else
      var (p, s) := Resume(r);
      match Seek(hdr, pages, p, s)
      case None => Rid(-1, -1)
      case Some(x) => x
  }

  /** The fetches of pages a .. b-1, in order. */
  function FetchRun(a: int, b: int): seq<BpmCall>
    decreases b - a
  {
    if b <= a then [] else FetchRun(a, b - 1) + [Fetch(b - 1)]
  }

  /** The pages next() fetches from `r`: each page it looks at, including the one it stops on. */
  function NextFetches(hdr: FileHdr, pages: map<int, Page>, r: Rid): seq<BpmCall>
    requires Resume(r).1 >= 0
  {
    if hdr.numPages <= 1 then []
    else
      var (p, s) := Resume(r);
      match Seek(hdr, pages, p, s)
      case None => FetchRun(p, hdr.numPages)
      case Some(x) => FetchRun(p, x.pageNo + 1)
  }

  /** The scan never unpins: every page it looks at keeps one more pin. */
  lemma {:induction false} ScanLeaksPins(log: seq<BpmCall>, a: int, b: int, q: int)
    ensures Pins(log + FetchRun(a, b), q) == Pins(log, q) + (if a <= q < b then 1 else 0)
    decreases b - a
  {
    if b > a {
      ScanLeaksPins(log, a, b - 1, q);
      assert log + FetchRun(a, b) == (log + FetchRun(a, b - 1)) + [Fetch(b - 1)];
      PinsAppend(log + FetchRun(a, b - 1), [Fetch(b - 1)], q);
      assert [Fetch(b - 1)][..0] == [];
    } else {
      assert log + FetchRun(a, b) == log;
    }
  }

  /**
   * Where next() stops, the scan's account of the file still adds up: the
   * record found follows the ones before it, or there is none left.
   */
  lemma SeekContinues(hdr: FileHdr, pages: map<int, Page>, before: seq<Rid>, p: int, s: int)
    requires s >= 0 && 1 <= p
    requires before + Enumerate(hdr, pages, p, s) == Enumerate(hdr, pages, 1, 0)
    ensures Seek(hdr, pages, p, s).None? ==> before == Enumerate(hdr, pages, 1, 0)
    ensures Seek(hdr, pages, p, s).Some? ==>
      var x := Seek(hdr, pages, p, s).value;
      && 1 <= x.pageNo && InFile(hdr, x) && Occupied(hdr, pages, x)
      && before + [x] + Enumerate(hdr, pages, x.pageNo, x.slotNo + 1) == Enumerate(hdr, pages, 1, 0)
  {
    SeekEnumerate(hdr, pages, p, s);
    SeekIsLeast(hdr, pages, p, s);
    if Seek(hdr, pages, p, s).Some? {
      var x := Seek(hdr, pages, p, s).value;
      assert before + [x] + Enumerate(hdr, pages, x.pageNo, x.slotNo + 1)
        == before + ([x] + Enumerate(hdr, pages, x.pageNo, x.slotNo + 1));
    } else {
      assert before + [] == before;
    }
  }

  /** The scan stands on a record, and the visited ones, it, and the ones after it are the whole file. */
  ghost predicate OnRecord(hdr: FileHdr, pages: map<int, Page>, visited: seq<Rid>, rid: Rid)
  {
    && 1 <= rid.pageNo && InFile(hdr, rid) && Occupied(hdr, pages, rid)
    && visited + [rid] + Enumerate(hdr, pages, rid.pageNo, rid.slotNo + 1) == Enumerate(hdr, pages, 1, 0)
  }

  /** The scan is past the last record and has visited them all. */
  ghost predicate Finished(hdr: FileHdr, pages: map<int, Page>, visited: seq<Rid>, rid: Rid)
  {
    rid.pageNo == -1 && visited == Enumerate(hdr, pages, 1, 0)
  }

  /** The records visited once next() has moved on from `rid`. */
  function Visited(visited: seq<Rid>, rid: Rid): seq<Rid>
  {
    if rid == Rid(0, -1) then [] else visited + [rid]
  }

  /**
   * next() keeps the scan's account of the file: from the starting position
   * or a record, it reaches the next record or the end, having visited the
   * one it left.
   */
  lemma NextKeepsAccount(hdr: FileHdr, pages: map<int, Page>, visited: seq<Rid>, rid: Rid)
    requires (rid == Rid(0, -1) && visited == []) || OnRecord(hdr, pages, visited, rid)
    ensures var r := NextRid(hdr, pages, rid); var v := Visited(visited, rid);
      OnRecord(hdr, pages, v, r) || Finished(hdr, pages, v, r)
  {
    var v := Visited(visited, rid);
    var start := Resume(rid);
    if hdr.numPages <= 1 {
      assert Enumerate(hdr, pages, 1, 0) == [] && v == [];
    } else {
      assert v + Enumerate(hdr, pages, start.0, start.1) == Enumerate(hdr, pages, 1, 0);
      SeekContinues(hdr, pages, v, start.0, start.1);
    }
  }

  /** Every data page of the file is stored, with a bit per slot. */
  lemma DataPageShape(hdr: FileHdr, pages: map<int, Page>, chain: seq<int>, p: int)
    requires FileInv(hdr, pages, chain) && 1 <= p < hdr.numPages
    ensures p in pages && PageAt(hdr, pages, p) == pages[p] && |pages[p].bitmap| == hdr.numRecordsPerPage
  {
    assert WellFormed(pages[p], hdr);
  }

  datatype ScanError = ScanEnded

  class RmScan {
    /** file_handle_ */
    const fh: RmFileHandle
    /** rid_: the current position; page -1 marks the end. */
    var rid: Rid
    /** The records the scan stood on before the current one. */
    ghost var visited: seq<Rid>

    ghost predicate Valid()
      reads this, fh
    {
      fh.Valid() && (OnRecord(fh.fileHdr, fh.pages, visited, rid) || Finished(fh.fileHdr, fh.pages, visited, rid))
    }

    /** The RmScan constructor: start before page 1 and move to the first record. */
    constructor (fh: RmFileHandle)
      requires fh.Valid()
      modifies fh`calls
      ensures this.fh == fh && Valid() && visited == []
      ensures rid == NextRid(fh.fileHdr, fh.pages, Rid(0, -1))
      ensures fh.calls == old(fh.calls) + NextFetches(fh.fileHdr, fh.pages, Rid(0, -1))
    {
      this.fh := fh;
      rid := Rid(0, -1);
      visited := [];
      new;
      Next();
    }

    /**
     * The search loop of next(): from position (p, s) walk the slots of each
     * page in turn, fetching every page looked at, and stop at the first set bit.
     */
    method SeekFrom(p: int, s: int) returns (r: Option<Rid>)
      requires fh.Valid() && 1 <= p && s >= 0
      modifies fh`calls
      ensures r == Seek(fh.fileHdr, fh.pages, p, s)
      ensures fh.calls == old(fh.calls) + (if r.Some? then FetchRun(p, r.value.pageNo + 1) else FetchRun(p, fh.fileHdr.numPages))
    {
      var hdr, pages := fh.fileHdr, fh.pages;
      ghost var calls0 := fh.calls;
      ghost var target := Seek(hdr, pages, p, s);
      var page, slot := p, s;
      while page < hdr.numPages
        invariant p <= page && slot >= 0
        invariant page <= hdr.numPages || page == p
        invariant Seek(hdr, pages, page, slot) == target
        invariant fh.calls == calls0 + FetchRun(p, page)
        decreases hdr.numPages - page
      {
        DataPageShape(hdr, pages, fh.freeChain, page);
        var h := fh.FetchPageHandle(page, true);
        assert fh.calls == calls0 + FetchRun(p, page + 1);
        slot := ScanPage(hdr, pages, page, h.value, slot);
        if slot < hdr.numRecordsPerPage {
          return Some(Rid(page, slot));
        }
        page, slot := page + 1, 0;
      }
      assert FetchRun(p, page) == FetchRun(p, hdr.numPages);
      return None;
    }

    /** The inner loop of next(): walk the slots of page `page` from `s` up to the first set bit. */
    static method ScanPage(hdr: FileHdr, pages: map<int, Page>, page: int, pg: Page, s: int) returns (slot: int)
      requires 0 <= page < hdr.numPages && s >= 0
      requires pg == PageAt(hdr, pages, page) && |pg.bitmap| == hdr.numRecordsPerPage
      ensures slot >= s
      ensures Seek(hdr, pages, page, slot) == Seek(hdr, pages, page, s)
      ensures slot < hdr.numRecordsPerPage ==> Occupied(hdr, pages, Rid(page, slot))
      ensures slot >= hdr.numRecordsPerPage ==> Seek(hdr, pages, page, s) == Seek(hdr, pages, page + 1, 0)
    {
      var n := hdr.numRecordsPerPage;
      slot := s;
      while slot < n && !pg.bitmap[slot]
        invariant s <= slot
        invariant Seek(hdr, pages, page, slot) == Seek(hdr, pages, page, s)
        decreases n - slot
      {
        assert !Occupied(hdr, pages, Rid(page, slot));
        slot := slot + 1;
      }
    }

    /**
     * next(): move to the first record after the current position, fetching
     * every page looked at and unpinning none; past the last record the
     * position becomes (-1, -1).
     */
    method Next()
      requires fh.Valid()
      requires (rid == Rid(0, -1) && visited == []) || OnRecord(fh.fileHdr, fh.pages, visited, rid)
      modifies this, fh`calls
      ensures Valid()
      ensures visited == Visited(old(visited), old(rid))
      ensures rid == NextRid(fh.fileHdr, fh.pages, old(rid))
      ensures fh.calls == old(fh.calls) + NextFetches(fh.fileHdr, fh.pages, old(rid))
    {
      NextKeepsAccount(fh.fileHdr, fh.pages, visited, rid);
      var start := Resume(rid);
      visited := Visited(visited, rid);
      if fh.fileHdr.numPages <= 1 {
        rid := Rid(-1, rid.slotNo);
        return;
      }
      var found := SeekFrom(start.0, start.1);
      rid := if found.Some? then found.value else Rid(-1, -1);
    }

    /** is_end(): the end mark is set exactly when every record has been visited. */
    method IsEnd() returns (b: bool)
      requires Valid()
      ensures b <==> rid.pageNo == -1
      ensures b <==> visited == Enumerate(fh.fileHdr, fh.pages, 1, 0)
    {
      b := rid.pageNo == -1;
      if OnRecord(fh.fileHdr, fh.pages, visited, rid) {
        assert |visited + [rid] + Enumerate(fh.fileHdr, fh.pages, rid.pageNo, rid.slotNo + 1)|
          > |visited|;
      }
    }

    /** rid(): the current position, which holds a record; an error once the scan has ended. */
    method CurrentRid() returns (r: Result<Rid, ScanError>)
      requires Valid()
      ensures r.Err? <==> rid.pageNo == -1
      ensures r.Ok? ==>
        r.value == rid && InFile(fh.fileHdr, r.value) && 1 <= r.value.pageNo && Occupied(fh.fileHdr, fh.pages, r.value)
    {
      if rid.pageNo == -1 {
        return Err(ScanEnded);
      }
      r := Ok(rid);
    }
  }
}
