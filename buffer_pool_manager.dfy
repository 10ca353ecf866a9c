/**
 * The buffer pool: a fixed array of frames, a page table from page identity
 * to frame, a free list of frames that hold no page, and the LRU replacer over
 * the frames that hold an unpinned page.  The disk is a map from page
 * identity to bytes (a page never written reads as zeros) together with the
 * per-descriptor counters of allocate_page.
 */
module BufferPool {
  import opened Common
  import opened Replacer

  /** One frame: the page it holds, its pin count, its dirty flag and its bytes. */
  datatype Frame = Frame(id: PageId, pinCount: int, isDirty: bool, data: seq<byte>)

  /** The bytes the disk holds for `pid`. */
  function ReadDisk(disk: map<PageId, seq<byte>>, pid: PageId): seq<byte>
  {
    if pid in disk then disk[pid] else Zeros(PAGE_SIZE)
  }

  /** The disk after a victim frame is given up: a dirty frame is written back under its old identity. */
  function EvictWrite(disk: map<PageId, seq<byte>>, victim: Frame): map<PageId, seq<byte>>
  {
    if victim.isDirty then disk[victim.id := victim.data] else disk
  }

  /** The page number allocate_page hands out next for `fd`. */
  function NextPageNo(counters: map<int, int>, fd: int): int
  {
    if fd in counters then counters[fd] else 0
  }

  /** The disk after writing, in array order, every frame of `frames` whose page belongs to `fd`. */
  function FlushedDisk(disk: map<PageId, seq<byte>>, frames: seq<Frame>, fd: int): map<PageId, seq<byte>>
    decreases |frames|
  {
    if frames == [] then disk
    else
      var d := FlushedDisk(disk, frames[..|frames| - 1], fd);
      var last := frames[|frames| - 1];
      if last.id.fd == fd then d[last.id := last.data] else d
  }

  /**
   * Flushing the frames of `fd` whose pages are distinct puts each such
   * frame's bytes on disk under its page and leaves every other page alone.
   */
  lemma {:induction false} FlushedDiskContents(disk: map<PageId, seq<byte>>, frames: seq<Frame>, fd: int)
    requires forall i, j :: 0 <= i < j < |frames| && frames[i].id.fd == fd && frames[j].id.fd == fd ==>
      frames[i].id != frames[j].id
    ensures forall i :: 0 <= i < |frames| && frames[i].id.fd == fd ==>
      frames[i].id in FlushedDisk(disk, frames, fd) && FlushedDisk(disk, frames, fd)[frames[i].id] == frames[i].data
    ensures forall pid :: (forall i :: 0 <= i < |frames| ==> frames[i].id != pid || pid.fd != fd) ==>
      (pid in FlushedDisk(disk, frames, fd) <==> pid in disk)
      && (pid in disk ==> FlushedDisk(disk, frames, fd)[pid] == disk[pid])
    decreases |frames|
  {
    if frames != [] {
      var init := frames[..|frames| - 1];
      assert forall i :: 0 <= i < |init| ==> init[i] == frames[i];
      FlushedDiskContents(disk, init, fd);
    }
  }

  /** Flushing one more frame is at most one more write. */
  lemma FlushedDiskStep(disk: map<PageId, seq<byte>>, frames: seq<Frame>, i: int, fd: int)
    requires 0 <= i < |frames|
    ensures var d := FlushedDisk(disk, frames[..i], fd);
      FlushedDisk(disk, frames[..i + 1], fd) == if frames[i].id.fd == fd then d[frames[i].id := frames[i].data] else d
  {
    assert frames[..i + 1][..i] == frames[..i];
  }

  /** The frames with the first `n` of those holding a page of `fd` marked clean. */
  function CleanedFrames(frames: seq<Frame>, n: int, fd: int): (r: seq<Frame>)
    ensures |r| == |frames|
    ensures forall j :: 0 <= j < |frames| ==>
      r[j] == if j < n && frames[j].id.fd == fd then frames[j].(isDirty := false) else frames[j]
  {
    seq(|frames|, j requires 0 <= j < |frames| =>
      if j < n && frames[j].id.fd == fd then frames[j].(isDirty := false) else frames[j])
  }

  /** Cleaning one more frame is one update of the sequence. */
  lemma CleanedFramesStep(frames: seq<Frame>, i: int, fd: int)
    requires 0 <= i < |frames|
    ensures CleanedFrames(frames, i + 1, fd) ==
      if frames[i].id.fd == fd then CleanedFrames(frames, i, fd)[i := frames[i].(isDirty := false)]
      else CleanedFrames(frames, i, fd)
  {
  }

  /** A frame that holds no page: invalid identity, unpinned, clean. */
  predicate Blank(fr: Frame)
  {
    fr.id == INVALID_ID && fr.pinCount == 0 && !fr.isDirty
  }

  /**
   * The pool's invariant over the frames, the page table, the free list and
   * the replacer's list, except that frame `hole` (when it is a frame) has
   * just been acquired for a new page: it is then on no list and in no
   * mapping, unpinned and clean.  Every other frame is either free and blank
   * or holds a resident page that maps back to it; the replacer tracks
   * exactly the resident frames with pin count 0.
   */
  ghost predicate PoolInv(frames: seq<Frame>, table: map<PageId, int>, free: seq<int>, lru: seq<int>, hole: int)
  {
    && NoDup(free) && NoDup(lru)
    && (forall i :: 0 <= i < |free| ==> 0 <= free[i] < |frames| && free[i] != hole && Blank(frames[free[i]]))
    && (forall pid :: pid in table ==>
          0 <= table[pid] < |frames| && table[pid] != hole && table[pid] !in free && frames[table[pid]].id == pid)
    && (forall f :: 0 <= f < |frames| && f != hole && f !in free ==>
          frames[f].id in table && table[frames[f].id] == f)
    && (forall f :: 0 <= f < |frames| ==> frames[f].pinCount >= 0)
    && (forall f :: f in lru <==> 0 <= f < |frames| && f != hole && f !in free && frames[f].pinCount == 0)
    && (0 <= hole < |frames| ==> hole !in free && frames[hole].pinCount == 0 && !frames[hole].isDirty)
  }

  /** The page table never maps two pages to one frame. */
  lemma TableInjective(frames: seq<Frame>, table: map<PageId, int>, free: seq<int>, lru: seq<int>, hole: int)
    requires PoolInv(frames, table, free, lru, hole)
    ensures forall a, b :: a in table && b in table && a != b ==> table[a] != table[b]
  {
  }

  /** Two distinct frames never hold the same page of a real descriptor. */
  lemma ResidentIdsDistinct(frames: seq<Frame>, table: map<PageId, int>, free: seq<int>, lru: seq<int>, fd: int)
    requires PoolInv(frames, table, free, lru, -1) && fd >= 0
    ensures forall i, j :: 0 <= i < j < |frames| && frames[i].id.fd == fd && frames[j].id.fd == fd ==>
      frames[i].id != frames[j].id
  {
    forall i, j | 0 <= i < j < |frames| && frames[i].id.fd == fd && frames[j].id.fd == fd
      ensures frames[i].id != frames[j].id
    {
    }
  }

  /** Taking the front of the free list leaves that frame as the hole. */
  lemma TakeFreePreserves(frames: seq<Frame>, table: map<PageId, int>, free: seq<int>, lru: seq<int>)
    requires PoolInv(frames, table, free, lru, -1) && free != []
    ensures 0 <= free[0] < |frames| && Blank(frames[free[0]])
    ensures PoolInv(frames, table, free[1..], lru, free[0])
  {
    HeadNotInTail(free);
    assert free[0] in free;
    forall i | 0 <= i < |free[1..]|
      ensures free[1..][i] == free[i + 1]
    {
    }
  }

  /**
   * Evicting the replacer's victim (the free list being empty) drops its page
   * from the table, clears its dirty flag, and leaves it as the hole; the
   * victim is never a pinned frame.
   */
  lemma EvictPreserves(frames: seq<Frame>, table: map<PageId, int>, lru: seq<int>)
    requires PoolInv(frames, table, [], lru, -1) && lru != []
    ensures var f := lru[|lru| - 1];
      && 0 <= f < |frames| && frames[f].pinCount == 0
      && PoolInv(frames[f := frames[f].(isDirty := false)], table - {frames[f].id}, [], lru[..|lru| - 1], f)
  {
    var f := lru[|lru| - 1];
    var rest := lru[..|lru| - 1];
    assert lru == rest + [f];
    assert f !in rest by {
      forall k | 0 <= k < |rest|
        ensures rest[k] != f
      {
        assert rest[k] == lru[k];
      }
    }
    assert f in lru;
    forall i, j | 0 <= i < j < |rest|
      ensures rest[i] != rest[j]
    {
      assert rest[i] == lru[i] && rest[j] == lru[j];
    }
    var id := frames[f].id;
    var frames' := frames[f := frames[f].(isDirty := false)];
    var table' := table - {id};
    forall pid | pid in table'
      ensures table'[pid] != f && frames'[table'[pid]].id == pid
    {
      assert frames[table[pid]].id == pid;
    }
    forall g | 0 <= g < |frames'| && g != f
      ensures frames'[g].id in table' && table'[frames'[g].id] == g
    {
      assert table[frames[g].id] == g && table[id] == f;
    }
    forall g
      ensures g in rest <==> g in lru && g != f
    {
      assert g in lru <==> g in rest || g == f;
    }
  }

  /** Installing page `pid` in the hole pins it once and closes the hole. */
  lemma InstallPreserves(frames: seq<Frame>, table: map<PageId, int>, free: seq<int>, lru: seq<int>,
                         f: int, pid: PageId, data: seq<byte>)
    requires 0 <= f < |frames| && PoolInv(frames, table, free, lru, f) && pid !in table
    ensures PoolInv(frames[f := Frame(pid, 1, false, data)], table[pid := f], free, lru, -1)
  {
  }

  /** A hit on a resident page adds a pin and takes its frame off the replacer. */
  lemma HitPreserves(frames: seq<Frame>, table: map<PageId, int>, free: seq<int>, lru: seq<int>, pid: PageId)
    requires PoolInv(frames, table, free, lru, -1) && pid in table
    ensures var f := table[pid];
      PoolInv(frames[f := frames[f].(pinCount := frames[f].pinCount + 1)], table, free, Remove(lru, f), -1)
  {
    var f := table[pid];
    forall g
      ensures g in Remove(lru, f) <==> g in lru && g != f
    {
      assert g in Elems(Remove(lru, f)) <==> g in Remove(lru, f);
      assert g in Elems(lru) <==> g in lru;
    }
  }

  /** Dropping a pin keeps the invariant; the last pin puts the frame on the replacer. */
  lemma UnpinPreserves(frames: seq<Frame>, table: map<PageId, int>, free: seq<int>, lru: seq<int>,
                       pid: PageId, dirty: bool)
    requires PoolInv(frames, table, free, lru, -1) && pid in table && frames[table[pid]].pinCount > 0
    ensures var f := table[pid];
      var fr := frames[f];
      PoolInv(frames[f := fr.(pinCount := fr.pinCount - 1, isDirty := fr.isDirty || dirty)], table, free,
              if fr.pinCount == 1 then Unpinned(lru, f) else lru, -1)
  {
    var f := table[pid];
    UnpinnedValid(lru, f);
    forall g
      ensures g in Unpinned(lru, f) <==> g in lru || g == f
    {
      assert g in Elems(Unpinned(lru, f)) <==> g in Unpinned(lru, f);
      assert g in Elems(lru) <==> g in lru;
    }
  }

  /** Erasing `f` from a list leaves exactly the other members. */
  lemma RemoveMembers(l: seq<int>, f: int)
    ensures forall g :: g in Remove(l, f) <==> g in l && g != f
  {
    forall g
      ensures g in Remove(l, f) <==> g in l && g != f
    {
      assert g in Elems(Remove(l, f)) <==> g in Remove(l, f);
      assert g in Elems(l) <==> g in l;
    }
  }

  /** Appending a frame not yet on a list without duplicates keeps it without duplicates. */
  lemma AppendFresh(l: seq<int>, f: int)
    requires NoDup(l) && f !in l
    ensures NoDup(l + [f]) && forall g :: g in l + [f] <==> g in l || g == f
  {
    forall i, j | 0 <= i < j < |l + [f]|
      ensures (l + [f])[i] != (l + [f])[j]
    {
      if j == |l| {
        assert (l + [f])[i] == l[i];
      }
    }
  }

  /** Deleting an unpinned resident page blanks its frame and appends it to the free list. */
  lemma DeletePreserves(frames: seq<Frame>, table: map<PageId, int>, free: seq<int>, lru: seq<int>, pid: PageId)
    requires PoolInv(frames, table, free, lru, -1) && pid in table && frames[table[pid]].pinCount == 0
    ensures var f := table[pid];
      PoolInv(frames[f := frames[f].(id := INVALID_ID, isDirty := false)], table - {pid}, free + [f],
              Remove(lru, f), -1)
  {
    var f := table[pid];
    TableInjective(frames, table, free, lru, -1);
    RemoveMembers(lru, f);
    AppendFresh(free, f);
    var frames' := frames[f := frames[f].(id := INVALID_ID, isDirty := false)];
    var table' := table - {pid};
    var free' := free + [f];
    forall i | 0 <= i < |free'|
      ensures 0 <= free'[i] < |frames'| && Blank(frames'[free'[i]])
    {
      if i < |free| {
        assert free'[i] == free[i] && free[i] != f;
      }
    }
    forall q | q in table'
      ensures table'[q] != f && table'[q] !in free' && frames'[table'[q]].id == q
    {
      assert table[q] !in free && frames[table[q]].id == q;
    }
    forall g | 0 <= g < |frames'| && g !in free'
      ensures frames'[g].id in table' && table'[frames'[g].id] == g
    {
      assert g != f && g !in free;
      assert table[frames[g].id] == g;
    }
  }

  /** Clearing a frame's dirty flag keeps the invariant. */
  lemma CleanPreserves(frames: seq<Frame>, table: map<PageId, int>, free: seq<int>, lru: seq<int>, f: int)
    requires PoolInv(frames, table, free, lru, -1) && 0 <= f < |frames|
    ensures PoolInv(frames[f := frames[f].(isDirty := false)], table, free, lru, -1)
  {
  }

  class BufferPoolManager {
    /** pool_size_ */
    const poolSize: nat
    /** pages_: the frames. */
    const pages: array<Frame>
    /** page_table_: the frame each resident page is held in. */
    var pageTable: map<PageId, int>
    /** free_list_: frames that hold no page, taken from the front. */
    var freeList: seq<int>
    /** replacer_ */
    const replacer: LRUReplacer
    /** The pages on disk. */
    var disk: map<PageId, seq<byte>>
    /** The disk manager's allocate_page counters. */
    var counters: map<int, int>

    /** The pool's invariant with frame `hole` just acquired (see PoolInv). */
    ghost predicate Consistent(hole: int)
      reads this, pages, replacer
    {
      pages.Length == poolSize && replacer.Valid() && PoolInv(pages[..], pageTable, freeList, replacer.list, hole)
    }

    ghost predicate Valid()
      reads this, pages, replacer
    {
      Consistent(-1)
    }

    /** A pool of `size` free frames over the disk `d`. */
    constructor (size: nat, d: map<PageId, seq<byte>>)
      ensures Valid() && fresh(pages) && fresh(replacer)
      ensures poolSize == size && freeList == seq(size, i => i) && pageTable == map[]
      ensures forall j :: 0 <= j < size ==> pages[j] == Frame(INVALID_ID, 0, false, Zeros(PAGE_SIZE))
      ensures replacer.list == [] && disk == d && counters == map[]
    {
      poolSize := size;
      pages := new Frame[size](_ => Frame(INVALID_ID, 0, false, Zeros(PAGE_SIZE)));
      pageTable := map[];
      freeList := seq(size, i => i);
      replacer := new LRUReplacer(size);
      disk := d;
      counters := map[];
      new;
      forall f | 0 <= f < size
        ensures f in freeList
      {
        assert freeList[f] == f;
      }
      assert forall j :: 0 <= j < size ==> pages[..][j] == Frame(INVALID_ID, 0, false, Zeros(PAGE_SIZE));
    }

    /**
     * find_victim_page: take the front of the free list, else ask the replacer
     * for a victim, writing it back if dirty and dropping its mapping.
     */
    method FindVictimPage() returns (ok: bool, frame: int)
      requires Valid()
      modifies this, pages, replacer
      ensures ok <==> old(freeList) != [] || old(replacer.list) != []
      ensures !ok ==> Valid()
      ensures ok ==> 0 <= frame < poolSize && Consistent(frame)
      ensures counters == old(counters)
      ensures old(freeList) != [] ==>
        && frame == old(freeList)[0] && freeList == old(freeList)[1..]
        && pageTable == old(pageTable) && disk == old(disk) && replacer.list == old(replacer.list)
        && pages[..] == old(pages[..])
      ensures old(freeList) == [] ==> freeList == old(freeList)
      ensures old(freeList) == [] && old(replacer.list) == [] ==>
        pageTable == old(pageTable) && disk == old(disk) && replacer.list == old(replacer.list)
        && pages[..] == old(pages[..])
      ensures old(freeList) == [] && old(replacer.list) != [] ==>
        && frame == old(replacer.list)[|old(replacer.list)| - 1]
        && old(pages[frame]).pinCount == 0
        && replacer.list == old(replacer.list)[..|old(replacer.list)| - 1]
        && pageTable == old(pageTable) - {old(pages[frame]).id}
        && disk == EvictWrite(old(disk), old(pages[frame]))
        && pages[..] == old(pages[..])[frame := old(pages[frame]).(isDirty := false)]
    {
      if freeList != [] {
        frame := TakeFree();
        return true, frame;
      }
      if replacer.list == [] {
        return false, -1;
      }
      frame := Evict();
      ok := true;
    }

    /** The free-list half of find_victim_page. */
    method TakeFree() returns (frame: int)
      requires Valid() && freeList != []
      modifies this
      ensures 0 <= frame < poolSize && Consistent(frame)
      ensures frame == old(freeList)[0] && freeList == old(freeList)[1..]
      ensures pageTable == old(pageTable) && disk == old(disk) && counters == old(counters)
    {
      TakeFreePreserves(pages[..], pageTable, freeList, replacer.list);
      frame := freeList[0];
      freeList := freeList[1..];
    }

    /** The replacer half of find_victim_page: evict the victim, writing it back if dirty. */
    method Evict() returns (frame: int)
      requires Valid() && freeList == [] && replacer.list != []
      modifies this, pages, replacer
      ensures 0 <= frame < poolSize && Consistent(frame)
      ensures frame == old(replacer.list)[|old(replacer.list)| - 1]
      ensures old(pages[frame]).pinCount == 0
      ensures freeList == old(freeList) && counters == old(counters)
      ensures replacer.list == old(replacer.list)[..|old(replacer.list)| - 1]
      ensures pageTable == old(pageTable) - {old(pages[frame]).id}
      ensures disk == EvictWrite(old(disk), old(pages[frame]))
      ensures pages[..] == old(pages[..])[frame := old(pages[frame]).(isDirty := false)]
    {
      ghost var frames := pages[..];
      EvictPreserves(frames, pageTable, replacer.list);
      var ok;
      ok, frame := replacer.Victim();
      var victim := pages[frame];
      if victim.isDirty {
        disk := disk[victim.id := victim.data];
      }
      pages[frame] := victim.(isDirty := false);
      assert pages[..] == frames[frame := victim.(isDirty := false)];
      pageTable := pageTable - {victim.id};
    }

    /**
     * The effect of a successful fetch_page miss or new_page: frame `f` was
     * acquired and now holds page `pid` with bytes `data`, pinned once and clean.
     */
    twostate predicate Installed(f: int, pid: PageId, data: seq<byte>)
      reads this, pages, replacer
    {
      && 0 <= f < pages.Length
      && pages[..] == old(pages[..])[f := Frame(pid, 1, false, data)]
      && (old(freeList) != [] ==>
            && f == old(freeList)[0] && freeList == old(freeList)[1..]
            && disk == old(disk) && pageTable == old(pageTable)[pid := f]
            && replacer.list == old(replacer.list))
      && (old(freeList) == [] ==>
            && old(replacer.list) != []
            && f == old(replacer.list)[|old(replacer.list)| - 1]
            && freeList == old(freeList)
            && replacer.list == old(replacer.list)[..|old(replacer.list)| - 1]
            && disk == EvictWrite(old(disk), old(pages[f]))
            && pageTable == (old(pageTable) - {old(pages[f]).id})[pid := f])
    }

    /** Give the frame acquired by FindVictimPage page `pid`, pinned once and clean. */
    method Install(f: int, pid: PageId, data: seq<byte>)
      requires 0 <= f < poolSize && Consistent(f) && pid !in pageTable
      modifies this, pages, replacer
      ensures Valid()
      ensures pages[..] == old(pages[..])[f := Frame(pid, 1, false, data)]
      ensures pageTable == old(pageTable)[pid := f]
      ensures freeList == old(freeList) && disk == old(disk) && counters == old(counters)
      ensures replacer.list == old(replacer.list)
    {
      ghost var frames := pages[..];
      InstallPreserves(frames, pageTable, freeList, replacer.list, f, pid, data);
      pages[f] := Frame(pid, 1, false, data);
      ghost var after := pages[..];
      assert after == frames[f := Frame(pid, 1, false, data)];
      pageTable := pageTable[pid := f];
      assert f !in replacer.list;
      replacer.Pin(f);
      assert pages[..] == after;
    }

    /**
     * fetch_page: a resident page gains a pin in its frame; otherwise a frame
     * is acquired and loaded from disk; with no frame to acquire, nothing.
     */
    method FetchPage(pid: PageId) returns (r: Option<int>)
      requires Valid()
      modifies this, pages, replacer
      ensures Valid()
      ensures counters == old(counters)
      ensures pid in old(pageTable) ==>
        var f := old(pageTable)[pid];
        && r == Some(f)
        && pages[..] == old(pages[..])[f := old(pages[f]).(pinCount := old(pages[f]).pinCount + 1)]
        && pageTable == old(pageTable) && freeList == old(freeList) && disk == old(disk)
        && replacer.list == Remove(old(replacer.list), f)
      ensures pid !in old(pageTable) && old(freeList) == [] && old(replacer.list) == [] ==>
        && r == None
        && pages[..] == old(pages[..]) && pageTable == old(pageTable) && freeList == old(freeList)
        && disk == old(disk) && replacer.list == old(replacer.list)
      ensures pid !in old(pageTable) && (old(freeList) != [] || old(replacer.list) != []) ==>
        r.Some? && Installed(r.value, pid, ReadDisk(old(disk), pid))
    {
      if pid in pageTable {
        var f := FetchHit(pid);
        return Some(f);
      }
      r := FetchMiss(pid);
    }

    /** The hit half of fetch_page: pin the resident page once more and keep it from eviction. */
    method FetchHit(pid: PageId) returns (f: int)
      requires Valid() && pid in pageTable
      modifies this, pages, replacer
      ensures Valid()
      ensures f == old(pageTable)[pid]
      ensures pages[..] == old(pages[..])[f := old(pages[f]).(pinCount := old(pages[f]).pinCount + 1)]
      ensures pageTable == old(pageTable) && freeList == old(freeList) && disk == old(disk)
      ensures counters == old(counters)
      ensures replacer.list == Remove(old(replacer.list), f)
    {
      f := pageTable[pid];
      ghost var frames := pages[..];
      HitPreserves(frames, pageTable, freeList, replacer.list, pid);
      var fr := pages[f];
      pages[f] := fr.(pinCount := fr.pinCount + 1);
      ghost var after := pages[..];
      assert after == frames[f := fr.(pinCount := fr.pinCount + 1)];
      replacer.Pin(f);
      assert pages[..] == after;
    }

    /** The miss half of fetch_page: acquire a frame and load the page from disk into it. */
    method FetchMiss(pid: PageId) returns (r: Option<int>)
      requires Valid() && pid !in pageTable
      modifies this, pages, replacer
      ensures Valid()
      ensures counters == old(counters)
      ensures old(freeList) == [] && old(replacer.list) == [] ==>
        && r == None
        && pages[..] == old(pages[..]) && pageTable == old(pageTable) && freeList == old(freeList)
        && disk == old(disk) && replacer.list == old(replacer.list)
      ensures old(freeList) != [] || old(replacer.list) != [] ==>
        r.Some? && Installed(r.value, pid, ReadDisk(old(disk), pid))
    {
      var ok, f := Acquire(pid, true);
      r := if ok then Some(f) else None;
    }

    /**
     * Acquire a frame for `pid` and give it the page, pinned once and clean:
     * loaded from disk when `load` holds, keeping the frame's stale bytes otherwise.
     */
    method Acquire(pid: PageId, load: bool) returns (ok: bool, f: int)
      requires Valid() && pid !in pageTable
      modifies this, pages, replacer
      ensures Valid()
      ensures counters == old(counters)
      ensures ok <==> old(freeList) != [] || old(replacer.list) != []
      ensures !ok ==>
        && pages[..] == old(pages[..]) && pageTable == old(pageTable) && freeList == old(freeList)
        && disk == old(disk) && replacer.list == old(replacer.list)
      ensures ok ==>
        && 0 <= f < poolSize
        && Installed(f, pid, if load then ReadDisk(old(disk), pid) else old(pages[f]).data)
    {
      ghost var p0 := pages[..];
      ok, f := FindVictimPage();
      if !ok {
        return;
      }
      var data := if load then ReadDisk(disk, pid) else pages[f].data;
      assert data == if load then ReadDisk(old(disk), pid) else p0[f].data;
      assert pages[..][f := Frame(pid, 1, false, data)] == p0[f := Frame(pid, 1, false, data)];
      Install(f, pid, data);
    }

    /**
     * new_page, guarded: acquire a frame, then take the next page number of
     * `fd` and give the frame that page, pinned once and clean; the frame's
     * bytes are left as they were.  A page number that is already resident
     * is refused, changing nothing, where the source would map it a second
     * time (see `NewPageAsWritten`).
     */
    method NewPage(fd: int) returns (r: Option<(PageId, int)>)
      requires Valid() && 0 <= fd < MAX_FD
      modifies this, pages, replacer
      ensures Valid()
      ensures var pid := PageId(fd, NextPageNo(old(counters), fd));
        pid in old(pageTable) || (old(freeList) == [] && old(replacer.list) == []) ==>
        && r == None
        && pages[..] == old(pages[..]) && pageTable == old(pageTable) && freeList == old(freeList)
        && disk == old(disk) && replacer.list == old(replacer.list) && counters == old(counters)
      ensures var pid := PageId(fd, NextPageNo(old(counters), fd));
        pid !in old(pageTable) && (old(freeList) != [] || old(replacer.list) != []) ==>
        && r.Some? && r.value.0 == pid && 0 <= r.value.1 < poolSize
        && counters == old(counters)[fd := pid.pageNo + 1]
        && Installed(r.value.1, pid, old(pages[r.value.1]).data)
    {
      var pageNo := NextPageNo(counters, fd);
      var pid := PageId(fd, pageNo);
      if pid in pageTable {
        return None;
      }
      var ok, f := Acquire(pid, false);
      if !ok {
        return None;
      }
      counters := counters[fd := pageNo + 1];
      r := Some((pid, f));
    }

    /**
     * unpin_page: drop one pin of a resident, pinned page, marking it dirty
     * if asked; the frame becomes evictable when its last pin goes.
     */
    method UnpinPage(pid: PageId, isDirty: bool) returns (ok: bool)
      requires Valid()
      modifies this, pages, replacer
      ensures Valid()
      ensures pageTable == old(pageTable) && freeList == old(freeList) && disk == old(disk)
      ensures counters == old(counters)
      ensures ok <==> pid in old(pageTable) && old(pages[pageTable[pid]]).pinCount > 0
      ensures !ok ==> pages[..] == old(pages[..]) && replacer.list == old(replacer.list)
      ensures ok ==>
        var f := pageTable[pid];
        var was := old(pages[f]);
        && pages[..] == old(pages[..])[f := was.(pinCount := was.pinCount - 1, isDirty := was.isDirty || isDirty)]
        && replacer.list == if was.pinCount == 1 then [f] + old(replacer.list) else old(replacer.list)
    {
      if pid !in pageTable {
        return false;
      }
      var f := pageTable[pid];
      if pages[f].pinCount <= 0 {
        return false;
      }
      ghost var frames := pages[..];
      UnpinPreserves(frames, pageTable, freeList, replacer.list, pid, isDirty);
      var was := pages[f];
      pages[f] := was.(pinCount := was.pinCount - 1, isDirty := was.isDirty || isDirty);
      ghost var after := pages[..];
      assert after == frames[f := was.(pinCount := was.pinCount - 1, isDirty := was.isDirty || isDirty)];
      if was.pinCount == 1 {
        assert f !in replacer.list;
        replacer.Unpin(f);
        assert pages[..] == after;
      }
      ok := true;
    }

    /**
     * delete_page: a page that is not resident counts as deleted; a pinned
     * page is refused; otherwise its frame is reset and appended to the free
     * list, its bytes discarded without a write.
     */
    method DeletePage(pid: PageId) returns (ok: bool)
      requires Valid()
      modifies this, pages, replacer
      ensures Valid()
      ensures disk == old(disk) && counters == old(counters)
      ensures pid !in old(pageTable) ==>
        ok && pages[..] == old(pages[..]) && pageTable == old(pageTable)
        && freeList == old(freeList) && replacer.list == old(replacer.list)
      ensures pid in old(pageTable) && old(pages[pageTable[pid]]).pinCount > 0 ==>
        !ok && pages[..] == old(pages[..]) && pageTable == old(pageTable)
        && freeList == old(freeList) && replacer.list == old(replacer.list)
      ensures pid in old(pageTable) && old(pages[pageTable[pid]]).pinCount == 0 ==>
        var f := old(pageTable)[pid];
        && ok
        && pageTable == old(pageTable) - {pid}
        && freeList == old(freeList) + [f]
        && pages[..] == old(pages[..])[f := old(pages[f]).(id := INVALID_ID, isDirty := false)]
        && replacer.list == Remove(old(replacer.list), f)
    {
      if pid !in pageTable {
        return true;
      }
      var f := pageTable[pid];
      if pages[f].pinCount > 0 {
        return false;
      }
      Unmap(pid, f);
      ok := true;
    }

    /** The successful branch of delete_page: frame `f` gives up unpinned page `pid` and joins the free list. */
    method Unmap(pid: PageId, f: int)
      requires Valid() && pid in pageTable && f == pageTable[pid] && pages[f].pinCount == 0
      modifies this, pages, replacer
      ensures Valid()
      ensures disk == old(disk) && counters == old(counters)
      ensures pageTable == old(pageTable) - {pid}
      ensures freeList == old(freeList) + [f]
      ensures pages[..] == old(pages[..])[f := old(pages[f]).(id := INVALID_ID, isDirty := false)]
      ensures replacer.list == Remove(old(replacer.list), f)
    {
      DeletePreserves(pages[..], pageTable, freeList, replacer.list, pid);
      replacer.Pin(f);
      pageTable := pageTable - {pid};
      freeList := freeList + [f];
      pages[f] := pages[f].(isDirty := false, id := INVALID_ID);
    }

    /** flush_page: write a resident page to disk, dirty or not, and mark it clean. */
    method FlushPage(pid: PageId) returns (ok: bool)
      requires Valid()
      modifies this, pages
      ensures Valid()
      ensures pageTable == old(pageTable) && freeList == old(freeList) && counters == old(counters)
      ensures replacer.list == old(replacer.list)
      ensures ok <==> pid in pageTable
      ensures !ok ==> pages[..] == old(pages[..]) && disk == old(disk)
      ensures ok ==>
        var f := pageTable[pid];
        && disk == old(disk)[pid := old(pages[f]).data]
        && pages[..] == old(pages[..])[f := old(pages[f]).(isDirty := false)]
    {
      if pid !in pageTable {
        return false;
      }
      var f := pageTable[pid];
      CleanPreserves(pages[..], pageTable, freeList, replacer.list, f);
      disk := disk[pid := pages[f].data];
      pages[f] := pages[f].(isDirty := false);
      ok := true;
    }

    /** One step of flush_all_pages: write frame `i` back and mark it clean if its page belongs to `fd`. */
    method FlushFrame(i: int, fd: int)
      requires Valid() && 0 <= i < poolSize
      modifies this, pages
      ensures Valid()
      ensures pageTable == old(pageTable) && freeList == old(freeList) && counters == old(counters)
      ensures replacer.list == old(replacer.list)
      ensures old(pages[i]).id.fd == fd ==>
        && pages[..] == old(pages[..])[i := old(pages[i]).(isDirty := false)]
        && disk == old(disk)[old(pages[i]).id := old(pages[i]).data]
      ensures old(pages[i]).id.fd != fd ==> pages[..] == old(pages[..]) && disk == old(disk)
    {
      if pages[i].id.fd == fd {
        CleanPreserves(pages[..], pageTable, freeList, replacer.list, i);
        disk := disk[pages[i].id := pages[i].data];
        pages[i] := pages[i].(isDirty := false);
      }
    }

    /**
     * flush_all_pages: write every frame whose page belongs to `fd` to disk
     * and mark it clean; every such page ends up on disk with its frame's bytes.
     */
    method FlushAllPages(fd: int)
      requires Valid() && fd >= 0
      modifies this, pages
      ensures Valid()
      ensures pageTable == old(pageTable) && freeList == old(freeList) && counters == old(counters)
      ensures replacer.list == old(replacer.list)
      ensures forall j :: 0 <= j < poolSize ==>
        pages[j] == if old(pages[j]).id.fd == fd then old(pages[j]).(isDirty := false) else old(pages[j])
      ensures disk == FlushedDisk(old(disk), old(pages[..]), fd)
      ensures forall j :: 0 <= j < poolSize && pages[j].id.fd == fd ==>
        pages[j].id in disk && disk[pages[j].id] == pages[j].data
    {
      ghost var frames := pages[..];
      ResidentIdsDistinct(frames, pageTable, freeList, replacer.list, fd);
      var i := 0;
      while i < poolSize
        invariant 0 <= i <= poolSize
        invariant Valid()
        invariant pageTable == old(pageTable) && freeList == old(freeList) && counters == old(counters)
        invariant replacer.list == old(replacer.list)
        invariant pages[..] == CleanedFrames(frames, i, fd)
        invariant disk == FlushedDisk(old(disk), frames[..i], fd)
      {
        FlushedDiskStep(old(disk), frames, i, fd);
        CleanedFramesStep(frames, i, fd);
        FlushFrame(i, fd);
        i := i + 1;
      }
      assert frames[..poolSize] == frames;
      assert pages[..] == CleanedFrames(frames, poolSize, fd);
      FlushedDiskContents(old(disk), frames, fd);
    }
  }

  /** The pool's state as plain values. */
  datatype PoolState = PoolState(frames: seq<Frame>, table: map<PageId, int>, free: seq<int>, lru: seq<int>,
                                 disk: map<PageId, seq<byte>>, counters: map<int, int>)

  /**
   * new_page as the source writes it, with no check that the page number it
   * takes is not already resident: find a frame (the free list's front, else
   * the replacer's victim, written back if dirty and unmapped), take the next
   * page number of `fd`, install that page pinned once and clean, and map it,
   * overwriting whatever frame the page table had for it.
   */
  function NewPageAsWritten(s: PoolState, fd: int): (r: Option<(PoolState, PageId, int)>)
    requires s.free != [] ==> 0 <= s.free[0] < |s.frames|
    requires s.lru != [] ==> 0 <= s.lru[|s.lru| - 1] < |s.frames|
    ensures r.None? <==> s.free == [] && s.lru == []
    ensures r.Some? ==>
      var (t, pid, f) := r.value;
      && pid == PageId(fd, NextPageNo(s.counters, fd))
      && 0 <= f < |t.frames| == |s.frames|
      && pid in t.table && t.table[pid] == f
      && t.frames[f] == Frame(pid, 1, false, s.frames[f].data)
      && t.counters == s.counters[fd := pid.pageNo + 1]
      && forall g :: 0 <= g < |s.frames| && g != f ==> t.frames[g] == s.frames[g]
  {
    var pid := PageId(fd, NextPageNo(s.counters, fd));
    if s.free != [] then
      var f := s.free[0];
      var t := PoolState(s.frames[f := Frame(pid, 1, false, s.frames[f].data)], s.table[pid := f],
                         s.free[1..], Remove(s.lru, f), s.disk, s.counters[fd := pid.pageNo + 1]);
      Some((t, pid, f))
    else if s.lru != [] then
      var f := s.lru[|s.lru| - 1];
      var v := s.frames[f];
      var t := PoolState(s.frames[f := Frame(pid, 1, false, v.data)], (s.table - {v.id})[pid := f],
                         s.free, Remove(s.lru[..|s.lru| - 1], f), EvictWrite(s.disk, v),
                         s.counters[fd := pid.pageNo + 1]);
      Some((t, pid, f))
    else None
  }

  /**
   * Two frames: frame 0 holds page 0 of descriptor 0, pinned once, and frame 1
   * is free.  A fetch_page of that page on a fresh pool leaves exactly this
   * (see `ReachDuplicateStart`), with no new_page on descriptor 0 yet.
   */
  function DuplicateStart(): PoolState
  {
    PoolState([Frame(PageId(0, 0), 1, false, Zeros(PAGE_SIZE)), Frame(INVALID_ID, 0, false, Zeros(PAGE_SIZE))],
              map[PageId(0, 0) := 0], [1], [], map[], map[])
  }

  /** `DuplicateStart` meets the pool's invariant. */
  lemma DuplicateStartValid()
    ensures
      var s := DuplicateStart();
      PoolInv(s.frames, s.table, s.free, s.lru, -1)
  {
    var s := DuplicateStart();
    assert s.frames[0].pinCount == 1 && s.free == [1];
  }

  /**
   * As written, new_page on descriptor 0 from `DuplicateStart`, a state that
   * meets the pool's invariant, hands out page 0 of descriptor 0 again: frame
   * 1 now holds it too, the page table points it at frame 1, and frame 0 is
   * left holding a page that no longer maps back to it, so the invariant is
   * broken.  Evicting frame 0 later erases the mapping of frame 1's page.
   */
  lemma NewPageDuplicatesId()
    ensures
      var r := NewPageAsWritten(DuplicateStart(), 0);
      && r.Some? && r.value.1 == PageId(0, 0) && r.value.2 == 1
      && r.value.0.frames[0].id == PageId(0, 0) && r.value.0.frames[1].id == PageId(0, 0)
      && r.value.0.table[PageId(0, 0)] == 1
      && !PoolInv(r.value.0.frames, r.value.0.table, r.value.0.free, r.value.0.lru, -1)
  {
    var t := NewPageAsWritten(DuplicateStart(), 0).value.0;
    assert 0 !in t.free && t.table[t.frames[0].id] != 0;
  }

  /** A fresh pool of two frames over an empty disk, after fetch_page of page 0 of descriptor 0, is `DuplicateStart`. */
  method ReachDuplicateStart() returns (s: PoolState)
    ensures s == DuplicateStart()
  {
    var bpm := new BufferPoolManager(2, map[]);
    var r := bpm.FetchPage(PageId(0, 0));
    s := PoolState(bpm.pages[..], bpm.pageTable, bpm.freeList, bpm.replacer.list, bpm.disk, bpm.counters);
  }
}
