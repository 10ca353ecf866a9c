# Rucbase storage core in Dafny

This project models the storage core of Rucbase, a teaching relational
database written in C++. It covers five parts and proves properties of each:

- **LRU replacer** (`Replacer`, lru_replacer.dfy). A recency list of the frames
  that may be evicted, with the most recently unpinned frame at the front, and
  the set of frames it tracks. It offers `victim`, `pin`, `unpin` and `Size`.
- **Buffer pool manager** (`BufferPool`, buffer_pool_manager.dfy).
  - A fixed array of frames, each with an id, a pin count, a dirty flag and
    bytes.
  - A page table from `PageId` to frame, a free list, the replacer, and the disk.
  - The disk is a map from `PageId` to bytes; a page never written reads as
    zeros. It comes with the per-descriptor page counters of `allocate_page`.
  - The pool's invariant `PoolInv` holds across every public operation:
    - the page table is injective and agrees with the frames' ids;
    - free frames are blank and unmapped;
    - the replacer tracks exactly the resident frames whose pin count is 0.
- **Disk manager bookkeeping** (`Disk`, disk_manager.dfy).
  - Pages are addressed by offset, and a read past the end of the file fills
    zeros.
  - `allocate_page` keeps a counter per descriptor.
  - The open-descriptor tables follow the rules of
    `create_file`/`destroy_file`/`open_file`/`close_file`/`get_file_name`/`get_file_fd`.
  - The length arithmetic of `read_log` is modelled.
  - The file system is a map from path to bytes. The descriptor that the
    operating system's `open` returns is a parameter.
- **Slot bitmap** (`Bitmap`, bitmap.dfy). The bitmap helpers the record layer
  uses: `first_bit` as "lowest clear index", the set/reset/init effects on the
  record count.
- **Record file handle** (`Record`, rm_file_handle.dfy). Fixed-width records live
  in slotted pages.
  - Each data page has a header (`num_records`, `next_free_page_no`), a bitmap
    and slots.
  - The file header heads an intrusive list of the pages with a free slot.
  - Each operation is described by a pure outcome function (`InsertOutcome`,
    `DeleteOutcome`, `UpdateOutcome`, `GetOutcome`). The class methods are
    proved to produce exactly that outcome.
  - The file invariant `FileInv` is preserved: every data page is well formed,
    and the free-page list read from the header is sound.
  - The buffer pool is seen through the ordered log of pins and unpins the
    handle asks of it (`calls`). Whether the pool finds a frame is a parameter,
    `frameAvailable`.
- **Forward scan** (`Scan`, rm_scan.dfy). A cursor over the set bits of pages
  1 .. num_pages-1, in page-then-slot order.
  - `Seek` is the next-record search as a function. `Enumerate` lists all
    records from a position.
  - The scan's ghost `visited` history, the current record and the records after
    it always add up to the whole file.

The model keeps the source's quirks:

- the scan takes a pin on every page it looks at and never unpins;
- new pages never join the free-page list;
- `open_file` compares descriptors, not paths;
- `path2fd_` is never written;
- the replacer's `max_size_` is never enforced.

Constants: `PAGE_SIZE` is 4096, `INVALID_PAGE_ID` is -1, the log file is
`db.log`, and `MAX_FD` is 1024. The first three come from `common/config.h` and
`defs.h`, which are not part of this model, so the usual Rucbase values are used.

## Model

| member | source | states |
|---|---|---|
| Replacer.Remove | src/replacer/lru_replacer.cpp:59-67 | Erasing a frame removes exactly that frame from the set of members. It keeps the list free of duplicates, shortens it by one when the frame was present, and changes nothing otherwise. |
| Replacer.RemoveAt | src/replacer/lru_replacer.cpp:59-67 | In a list without duplicates, erasing the frame at position k is cutting out that position, so the other frames keep their relative order. |
| Replacer.UnpinnedValid | src/replacer/lru_replacer.cpp:74-95 | unpin keeps the list free of duplicates and adds exactly the unpinned frame to the tracked set. |
| Replacer.Unpinned | src/replacer/lru_replacer.cpp:74-95 | The recency list after unpin: an untracked frame is pushed on the front and a tracked one leaves the list as it is. `UnpinnedValid` proves it keeps the list duplicate-free and tracks exactly one more frame. |
| Replacer.UnpinAll | src/replacer/lru_replacer.cpp:74-95 | The recency list after a run of unpin calls with no pin in between. `UnpinAllTracks`, `UnpinAllFresh` and `LruOrder` state what it holds. |
| Replacer.UnpinAllTracks | src/replacer/lru_replacer.cpp:74-95 | A run of unpin calls keeps the list duplicate-free, and afterwards the replacer tracks exactly the old frames and the unpinned ones. |
| Replacer.Drain | src/replacer/lru_replacer.cpp:22-46 | The frames that successive victim calls return, one per listed frame, the back of the list first. |
| Replacer.DrainAppend | src/replacer/lru_replacer.cpp:37-45 | Successive victims take the back of a list before its front. |
| Replacer.DrainTwice | src/replacer/lru_replacer.cpp:37-45 | The victim order is the list reversed, so draining twice gives the list back. |
| Replacer.UnpinAllFresh | src/replacer/lru_replacer.cpp:91-94 | Unpinning distinct untracked frames one after another pushes each on the front, so the last one ends up first. |
| Replacer.LruOrder | src/replacer/lru_replacer.cpp:22-95 | Unpin distinct untracked frames A, B, C with no pin in between. The victims are then the frames already tracked, oldest first, followed by A, B, C in that order. |
| Replacer.CardElems | src/replacer/lru_replacer.cpp:100 | A list without duplicates has as many members as entries, so the list length is the hash's size. |
| Replacer.LRUReplacer.constructor | src/replacer/lru_replacer.cpp:13 | A new replacer records its capacity and tracks nothing. |
| Replacer.LRUReplacer.Victim | src/replacer/lru_replacer.cpp:22-46 | It fails exactly on an empty list, and then changes nothing. Otherwise it returns the back frame, the least recently unpinned. It removes that frame from the list and the hash, the size drops by one, and the remaining victim order is unchanged. |
| Replacer.LRUReplacer.Pin | src/replacer/lru_replacer.cpp:52-68 | A tracked frame is cut out of the list, and the other frames keep their order. An untracked frame changes nothing. |
| Replacer.LRUReplacer.Unpin | src/replacer/lru_replacer.cpp:74-95 | An untracked frame goes on the front and into the hash. A tracked frame changes nothing: no duplicate, no reordering. |
| Replacer.LRUReplacer.Size | src/replacer/lru_replacer.cpp:100 | The number of tracked frames. |
| Disk.PageOffset | src/storage/disk_manager.cpp:48 | A page starts at page_no × PAGE_SIZE. The offset is negative exactly for a negative page number, which is what makes the seek fail. |
| Disk.WritePageOf | src/storage/disk_manager.cpp:41-65 | write_page on one file. It fails exactly for a negative page number. Otherwise the file grows to cover the page, the page's bytes are the data, and every other byte before the old end is unchanged. |
| Disk.ReadPageOf | src/storage/disk_manager.cpp:81-117 | read_page on one file. An offset at or past the end gives num_bytes zeros. A negative page number is a seek failure. A read running past the end is a short-read error. Otherwise the result is the num_bytes bytes at the page's offset. These are the only errors. |
| Disk.WriteAt | src/storage/disk_manager.cpp:41-65 | After a write, the file is long enough to hold the data at the offset, and the written range holds the data. Every other byte is the old one, or zero in a gap past the old end. |
| Disk.ReadAfterWrite | src/storage/disk_manager.cpp:41-117 | Page n sits at byte n·PAGE_SIZE for both write_page and read_page, so reading a page back after writing it returns the written bytes. |
| Disk.WriteKeepsOtherPages | src/storage/disk_manager.cpp:41-117 | Writing at most a page to page p leaves every successful read of at most a page from another page q unchanged. |
| Disk.ReadLogOf | src/storage/disk_manager.cpp:328-344 | read_log reports -1 exactly when the offset is past the end. Otherwise it reports min(size, file size - offset) bytes, which is 0 at the exact end, and returns exactly those log bytes. |
| Disk.ReadLogInPieces | src/storage/disk_manager.cpp:328-344 | Two consecutive read_log calls return the same bytes and the same total count as one read of both sizes. |
| Disk.OpenOutcome | src/storage/disk_manager.cpp:222-255 | open_file succeeds exactly when the path exists and the descriptor is below MAX_FD and unoccupied. It then returns that descriptor and records its path. On failure the table is unchanged. The path is never compared with already-open files. |
| Disk.DiskManager.constructor | src/storage/disk_manager.cpp:25-32 | Every page counter starts at 0 and no descriptor is occupied. |
| Disk.DiskManager.AllocatePage | src/storage/disk_manager.cpp:124-128 | It returns the descriptor's counter and increments it. Every other descriptor's counter is unchanged. |
| Disk.DiskManager.WritePage | src/storage/disk_manager.cpp:41-65 | A negative offset fails the seek and leaves the files unchanged. Otherwise the file open on the descriptor takes the written bytes, and the descriptor tables are unchanged. |
| Disk.DiskManager.ReadPage | src/storage/disk_manager.cpp:81-117 | Reading at or past the end yields num_bytes zeros. A read that would run past the end is an error (a short read), and so is a failed seek. Otherwise the result is the page's bytes. |
| Disk.DiskManager.IsFile | src/storage/disk_manager.cpp:157-164 | A path is a file exactly when get_file_size does not report -1 for it. |
| Disk.DiskManager.CreateFile | src/storage/disk_manager.cpp:170-188 | An existing path is refused with FileExists. Otherwise an empty file is added. |
| Disk.DiskManager.DestroyFile | src/storage/disk_manager.cpp:194-215 | A missing path is refused with FileNotFound. A path that some occupied descriptor is open on is refused too. Otherwise the file is removed. |
| Disk.DiskManager.OpenFile | src/storage/disk_manager.cpp:222-255 | The outcome and the new descriptor table are those of OpenOutcome, and the files are unchanged. |
| Disk.DiskManager.CloseFile | src/storage/disk_manager.cpp:261-284 | An out-of-range descriptor or an unoccupied one is refused and nothing changes. Otherwise the descriptor is freed and its path entry erased. |
| Disk.DiskManager.GetFileName | src/storage/disk_manager.cpp:302-307 | It fails exactly for a descriptor that is not open. Otherwise it returns that descriptor's path, which exists. |
| Disk.DiskManager.GetFileFd | src/storage/disk_manager.cpp:314-319 | An entry in path2fd_ is returned as is. Otherwise the outcome is that of open_file. path2fd_ itself is never changed. |
| Disk.DiskManager.GetFileSize | src/storage/disk_manager.cpp:291-295 | The file's length, and -1 exactly when there is no such file. |
| Disk.DiskManager.ReadLog | src/storage/disk_manager.cpp:328-344 | A missing log file is an error. Otherwise the result is ReadLogOf of the log's bytes. |
| BufferPool.FlushedDiskContents | src/storage/buffer_pool_manager.cpp:272-288 | After the frames of fd, which hold distinct pages, are flushed, each such page is on disk with its frame's bytes. Every other page is unchanged. |
| BufferPool.TableInjective | src/storage/buffer_pool_manager.cpp:96 | Under the pool invariant the page table never maps two pages to one frame. |
| BufferPool.ResidentIdsDistinct | src/storage/buffer_pool_manager.cpp:272-288 | Under the pool invariant no two frames hold the same page of a real descriptor. |
| BufferPool.TakeFreePreserves | src/storage/buffer_pool_manager.cpp:20-25 | The front of the free list is a blank frame. Taking it keeps the invariant, with that frame acquired. |
| BufferPool.EvictPreserves | src/storage/buffer_pool_manager.cpp:28-45 | The replacer's victim is an unpinned frame. Erasing its mapping and clearing its dirty flag keeps the invariant, with that frame acquired. |
| BufferPool.InstallPreserves | src/storage/buffer_pool_manager.cpp:138-156 | Giving the acquired frame a non-resident page, pinned once and clean, and mapping it restores the full invariant. |
| BufferPool.HitPreserves | src/storage/buffer_pool_manager.cpp:113-125 | A hit that adds a pin and takes the frame off the replacer keeps the invariant. |
| BufferPool.UnpinPreserves | src/storage/buffer_pool_manager.cpp:165-198 | Dropping a pin, with a sticky dirty flag, keeps the invariant. The frame goes to the replacer exactly when its last pin goes. |
| BufferPool.DeletePreserves | src/storage/buffer_pool_manager.cpp:205-239 | Blanking an unpinned resident frame keeps the invariant: its mapping is erased, it is appended to the free list and taken off the replacer. |
| BufferPool.CleanPreserves | src/storage/buffer_pool_manager.cpp:246-266 | Clearing the dirty flag of a frame keeps the invariant. |
| BufferPool.BufferPoolManager.constructor | src/storage/buffer_pool_manager.cpp:20-25 | A new pool has every frame on the free list in order, blank, with zeroed bytes, an empty page table and an empty replacer. The cited lines take frames from the front of that list; the header with the constructor is not part of this model. |
| BufferPool.BufferPoolManager.FindVictimPage | src/storage/buffer_pool_manager.cpp:18-49 | It succeeds exactly when the free list or the replacer is non-empty. The free list's front is taken first, changing nothing else. Otherwise the replacer's least recent unpinned frame is evicted: it is written under its old PageId if dirty, its dirty flag is cleared and its old mapping erased. On failure nothing changes. |
| BufferPool.BufferPoolManager.TakeFree | src/storage/buffer_pool_manager.cpp:20-25 | It pops the front of the free list, and the page table and disk are unchanged. |
| BufferPool.BufferPoolManager.Evict | src/storage/buffer_pool_manager.cpp:28-45 | The victim is the back of the replacer's list and has pin count 0. If dirty, it is written back under its old PageId. Its dirty flag is cleared and its mapping erased. |
| BufferPool.BufferPoolManager.Install | src/storage/buffer_pool_manager.cpp:138-156 | This is update_page followed by the rest of the install. The acquired frame gets the new PageId, pin count 1, clean, and the given bytes. The page table maps the page to it, the frame stays off the replacer, and the invariant holds again. |
| BufferPool.BufferPoolManager.Acquire | src/storage/buffer_pool_manager.cpp:129-156 | It gets a frame and installs the page: loaded from disk for a fetch, with the frame's old bytes for a new page. It fails, changing nothing, exactly when there is neither a free frame nor a victim. |
| BufferPool.BufferPoolManager.FetchPage | src/storage/buffer_pool_manager.cpp:109-157 | A resident page returns its own frame. Its pin count grows by exactly 1 and it is taken off the replacer; no other frame or mapping changes. A miss loads the page's disk bytes into the acquired frame, pinned once and clean. With no frame to acquire it returns nothing and changes nothing. |
| BufferPool.BufferPoolManager.FetchHit | src/storage/buffer_pool_manager.cpp:113-125 | The hit path of fetch_page: the same frame, one more pin, off the replacer, nothing else changed. |
| BufferPool.BufferPoolManager.FetchMiss | src/storage/buffer_pool_manager.cpp:129-156 | The miss path of fetch_page: the page's disk bytes in the acquired frame, pinned once and clean. It returns nothing when no frame can be acquired. |
| BufferPool.BufferPoolManager.NewPage | src/storage/buffer_pool_manager.cpp:72-102 | The corrected new_page. It fails, changing nothing (not even the page counter), when no frame can be acquired or when the counter's page is already resident. Otherwise the page number is the descriptor's counter, which is incremented. The acquired frame holds the new page, pinned once and clean, and is mapped, and the pool's invariant holds. |
| BufferPool.BufferPoolManager.UnpinPage | src/storage/buffer_pool_manager.cpp:165-198 | It fails, changing nothing, exactly when the page is not resident or its pin count is not positive. Otherwise the count drops by one and the dirty flag becomes sticky-or. The frame goes on the front of the replacer's list exactly when the count reaches 0. |
| BufferPool.BufferPoolManager.DeletePage | src/storage/buffer_pool_manager.cpp:205-239 | A non-resident page counts as deleted. A pinned page is refused, changing nothing. Otherwise the mapping is erased, the id reset and the dirty flag cleared, without a write. The frame is appended to the free list and taken off the replacer. |
| BufferPool.BufferPoolManager.Unmap | src/storage/buffer_pool_manager.cpp:224-238 | The success path of delete_page: the page's mapping is erased, its frame is blanked without a write, appended to the free list and taken off the replacer, and the invariant holds again. |
| BufferPool.BufferPoolManager.FlushPage | src/storage/buffer_pool_manager.cpp:246-266 | It fails exactly for a non-resident page. Otherwise it writes the frame's bytes under the page, dirty or not, and clears the dirty flag. |
| BufferPool.BufferPoolManager.FlushFrame | src/storage/buffer_pool_manager.cpp:276-287 | One iteration of the flush_all_pages loop: a frame of fd is written and marked clean, and any other frame is left alone. |
| BufferPool.BufferPoolManager.FlushAllPages | src/storage/buffer_pool_manager.cpp:272-288 | Exactly the frames of fd are marked clean, and the disk is the frames of fd written in array order. Afterwards every page of fd in the pool is on disk with its frame's bytes. |
| BufferPool.NewPageAsWritten | src/storage/buffer_pool_manager.cpp:72-102 | new_page exactly as written, on values. It fails exactly when there is neither a free frame nor a victim. Otherwise the page number is the descriptor's counter, which is incremented, and the acquired frame holds the page, pinned once and clean, and is mapped. No other frame changes, even one that already holds that page. |
| BufferPool.DuplicateStartValid | src/storage/buffer_pool_manager.cpp:109-157 | The two-frame state with page (0, 0) resident in frame 0 and frame 1 free meets the pool's invariant. |
| BufferPool.ReachDuplicateStart | src/storage/buffer_pool_manager.cpp:129-156 | fetch_page of page (0, 0) on a fresh two-frame pool over an empty disk reaches exactly that state. |
| BufferPool.NewPageDuplicatesId | src/storage/buffer_pool_manager.cpp:72-102 | From that state, new_page as written on descriptor 0 hands out page (0, 0) again. Two frames then hold it, the page table points at the new frame, and the pool's invariant is broken. |
| Bitmap.FirstClear | src/record/rm_file_handle.cpp:60 | first_bit(0, ...) returns the lowest clear position: a clear bit with only set bits before it, or the length when every bit is set. |
| Bitmap.CountSet | src/record/rm_file_handle.cpp:69-76 | Setting a clear bit adds one to the number of set bits, matching num_records++. |
| Bitmap.CountReset | src/record/rm_file_handle.cpp:122-125 | Resetting a set bit takes one from the number of set bits, matching num_records--. |
| Bitmap.CountFull | src/record/rm_file_handle.cpp:82 | The count equals the length exactly when every bit is set, so "num_records == num_records_per_page" means the page is full. |
| Bitmap.CountCleared | src/record/rm_file_handle.cpp:222 | A bitmap fresh from Bitmap::init has no set bit. |
| Bitmap.RoomMeansClearBit | src/record/rm_file_handle.cpp:60-66 | A page with fewer records than slots has a clear bit, and first_bit finds one. |
| Bitmap.OnlyClearBit | src/record/rm_file_handle.cpp:60 | When exactly one bit is clear, first_bit returns that bit. |
| Record.SessionBalanced | src/record/rm_file_handle.cpp:23-164 | A fetch or new page followed by one unpin of the same page leaves every page's pin count as it was. |
| Record.BlankWellFormed | src/record/rm_file_handle.cpp:215-222 | A freshly initialised page is well formed: no records and all bits clear. |
| Record.InsertIntoWellFormed | src/record/rm_file_handle.cpp:69-76 | Setting a clear bit, copying the record and incrementing num_records keeps the page well formed and within capacity. |
| Record.DeleteFromWellFormed | src/record/rm_file_handle.cpp:122-125 | Resetting a set bit and decrementing num_records keeps the page well formed and leaves it with a free slot. |
| Record.ChainPop | src/record/rm_file_handle.cpp:82-87 | When the head of the free-page list fills, moving the header to its next_free_page_no leaves a sound list without it. |
| Record.ChainPush | src/record/rm_file_handle.cpp:250-259 | Linking a page with a free slot in front of the head, with next_free set to the old head and the head set to the page, gives a sound list. |
| Record.NewPagePreserves | src/record/rm_file_handle.cpp:199-228 | Adding a blank page numbered num_pages, which was not a page before, and counting it keeps the file invariant with the free-page list unchanged. |
| Record.FileInvInsertable | src/record/rm_file_handle.cpp:54-66 | Under the file invariant the page create_page_handle hands out always has a clear bit, so the no-free-slot branch never fires. |
| Record.InsertPreserves | src/record/rm_file_handle.cpp:54-93 | insert_record keeps the file invariant. The free-page list loses its head exactly when the head fills. |
| Record.InsertThenGet | src/record/rm_file_handle.cpp:54-93 | The returned position is a data-page slot that held no record before, and it now reads back as the inserted bytes. |
| Record.InsertKeepsOthers | src/record/rm_file_handle.cpp:54-93 | insert_record changes no other record. |
| Record.NewPageStaysOffFreeList | src/record/rm_file_handle.cpp:199-245 | With the free list empty, an insert goes to slot 0 of a new page numbered num_pages and counts that page. The free list stays empty even when that page still has room. |
| Record.TwoInsertsTwoPages | src/record/rm_file_handle.cpp:236-245 | So two inserts into a file with no free page use two different new pages, whatever the page capacity. |
| Record.DeletePreserves | src/record/rm_file_handle.cpp:109-137 | A successful delete_record keeps the file invariant. A page that was full joins the front of the free-page list. |
| Record.DeleteThenGet | src/record/rm_file_handle.cpp:109-137 | delete_record fails exactly when get_record would fail. After a delete the record no longer reads. |
| Record.DeleteFullThenInsert | src/record/rm_file_handle.cpp:109-137 | Deleting from a full page makes it the free-list head, so the next insert takes exactly the freed slot. |
| Record.UpdatePreserves | src/record/rm_file_handle.cpp:146-164 | update_record succeeds exactly when get_record does. It keeps the invariant and the new bytes read back. The bitmap, num_records and next_free_page_no are unchanged. |
| Record.InsertOutcome | src/record/rm_file_handle.cpp:54-93 | The record goes to the page create_page_handle picks, which is then in the file, and reads back as the inserted bytes. The page count is create_page_handle's. Every other existing page is unchanged. |
| Record.GetOutcome | src/record/rm_file_handle.cpp:23-46 | The only error is RecordNotExist. A page beyond the file has no records. A success means the slot is in range and its bit is set. |
| Record.DeleteOutcome | src/record/rm_file_handle.cpp:109-137 | The only error is RecordNotExist, always for a page beyond the file. After a success the record no longer reads. The header is unchanged except that the page may become the free-list head. Every other page is unchanged. |
| Record.UpdateOutcome | src/record/rm_file_handle.cpp:146-164 | It succeeds exactly when get_record would, with RecordNotExist otherwise. Afterwards the record reads back as the new bytes, and every other page is unchanged. |
| Record.RmFileHandle.constructor | src/system/sm_manager.cpp:181-185 | The handle of a freshly created file: one page (the header), no free page, an empty free-page list and no pins. |
| Record.RmFileHandle.FetchPageHandle | src/record/rm_file_handle.cpp:174-193 | With a frame, it pins the page, logs one fetch and returns the page as stored (zeros past the end). Without one it fails and logs nothing. |
| Record.RmFileHandle.CreateNewPageHandle | src/record/rm_file_handle.cpp:199-228 | The new page is number num_pages, which was not a page before. It has no records, no next free page and a cleared bitmap. num_pages grows by one and one new-page pin is logged; the free-page list is unchanged. Without a frame nothing changes. |
| Record.RmFileHandle.CreatePageHandle | src/record/rm_file_handle.cpp:236-245 | It returns the free-list head when there is one, else a new page, with matching header change and pin. Each case has its own error. |
| Record.RmFileHandle.ReleasePageHandle | src/record/rm_file_handle.cpp:250-259 | The page's next_free becomes the old head, the header's head becomes the page, and the page is unpinned dirty. The invariant holds with the page pushed on the list. |
| Record.RmFileHandle.GetRecord | src/record/rm_file_handle.cpp:23-46 | The result is get_record's outcome: record_size bytes copied from a set slot, or RecordNotExist for a clear one. The page is unpinned clean on both exits and nothing changes. A fetch failure is an error. |
| Record.RmFileHandle.InsertRecord | src/record/rm_file_handle.cpp:54-93 | The new header, pages and position are InsertOutcome's. The log shows one pin of the chosen page and one dirty unpin. The invariant is kept. A fetch or new-page failure changes nothing. |
| Record.RmFileHandle.DeleteRecord | src/record/rm_file_handle.cpp:109-137 | The new header and pages are DeleteOutcome's. A clear bit fails with RecordNotExist, changes nothing and unpins clean. A success unpins dirty. |
| Record.RmFileHandle.ResetSlot | src/record/rm_file_handle.cpp:121-136 | The successful part of delete_record: the result is DeleteOutcome's, with one dirty unpin, the push of a formerly full page included. |
| Record.RmFileHandle.UpdateRecord | src/record/rm_file_handle.cpp:146-164 | The new pages are UpdateOutcome's. A clear bit fails with RecordNotExist and unpins clean. A success unpins dirty. The header and free-page list never change. |
| Scan.Seek | src/record/rm_scan.cpp:48-69 | The search next() performs. A result is a set slot of the file at or after the start position. |
| Scan.NextRid | src/record/rm_scan.cpp:31-74 | The position next() moves to. With num_pages <= 1 it is (-1, slot). Any other position it reaches is a set slot of the file strictly after the current one. |
| Scan.EnumerateMembers | src/record/rm_scan.cpp:48-69 | The enumeration from (p, s) lists exactly the set slots of the file at or after (p, s). |
| Scan.EnumerateSorted | src/record/rm_scan.cpp:48-69 | The enumeration is strictly increasing in page-then-slot order. |
| Scan.SeekEnumerate | src/record/rm_scan.cpp:48-73 | The search's result is the head of the enumeration, and the rest is the enumeration after it. No result means nothing is left. |
| Scan.SeekIsLeast | src/record/rm_scan.cpp:44-73 | The search returns the least set slot at or after the position. It returns nothing exactly when no slot at or after it is set. |
| Scan.FullScan | src/record/rm_scan.cpp:18-74 | A full scan from page 1, slot 0 visits exactly the set slots of pages 1 .. num_pages-1, in ascending order, so page 0 is never yielded. |
| Scan.ScanLeaksPins | src/record/rm_scan.cpp:50 | Each page next() looks at keeps one extra pin, because the scan never unpins. |
| Scan.SeekContinues | src/record/rm_scan.cpp:48-73 | Where the search stops, the visited records, the one found and the ones after it still make up the whole file. With nothing found, the visited records are the whole file. |
| Scan.NextKeepsAccount | src/record/rm_scan.cpp:31-74 | From the start or from a record, next() reaches the next record or the end. In both cases it has visited the record it left, and the account of the file still adds up. |
| Scan.RmScan.constructor | src/record/rm_scan.cpp:18-26 | The scan starts before page 1 and moves to the first record, or to the end. |
| Scan.RmScan.SeekFrom | src/record/rm_scan.cpp:48-69 | The nested loops find exactly what the search function finds. They fetch each page they look at, from the start page through the one they stop on, or through the last page. |
| Scan.RmScan.ScanPage | src/record/rm_scan.cpp:56-64 | The inner loop stops at the first set slot at or after its start. The slots it skips do not change what the search finds. Running off the end of the page continues the search at slot 0 of the next page. |
| Scan.RmScan.Next | src/record/rm_scan.cpp:31-74 | The new position is the first set slot strictly after the current one. With num_pages ≤ 1 the page becomes -1 and the slot is kept; past the last record it is (-1, -1). The record left is added to the history, and the pages looked at are fetched and never unpinned. |
| Scan.RmScan.IsEnd | src/record/rm_scan.cpp:80-83 | is_end holds exactly when the page is -1, which is exactly when every record has been visited. |
| Scan.RmScan.CurrentRid | src/record/rm_scan.cpp:89-95 | It fails exactly after the end. Otherwise it returns the current position, a set slot of a data page. |

## Left out

- Concurrency: the `latch_` mutex of the buffer pool and the replacer's lock are not modelled. Every operation runs sequentially.
- The system calls of the disk manager (`lseek`, `read`, `write`, `fsync`, `fstat`, `open`, `unlink`, `stat`) are replaced by the abstract file map. A write never comes up short, and durability is not expressible.
- Directory operations (`is_dir`, `create_dir`, `destroy_dir`) leave the file system and are not modelled. Neither are `write_log` and the lazy opening of the log descriptor; `read_log` reads the log file by name.
- `deallocate_page` is a no-op, and `insert_record(const Rid&, char*)` is an empty stub; neither is modelled.
- The buffer pool's disk never fails, and the disk manager's exceptions inside `fetch_page`, `new_page` and `flush_page` are not modelled.
- Byte layout is modelled structurally: the page header cast, the bitmap at `data + sizeof(RmPageHdr)`, and the byte packing of bits. The `Bitmap` helpers are not part of this model; `first_bit(0, …)` is taken as "lowest clear index".
- Persisting the file header to page 0 is not done in these files and is not modelled.
- The record-manager and system layers (file creation, catalog, indexes) are not part of this model. The record handle's constructor stands for a freshly created file.
- Integers are unbounded. `page_no * PAGE_SIZE` and the counters cannot wrap.
- BufferPool.BufferPoolManager.NewPage: refuses a page number that is already resident, which the source does not check (see Findings). fetch_page accepts any `PageId`, so the source can reach that state: page `(fd, n)` is resident before the counter of `fd` reaches `n`. The source's behaviour there is modelled by `BufferPool.NewPageAsWritten`.
- BufferPool.BufferPoolManager.NewPage: the page number is read before the frame is acquired. It is only committed when a frame is found, so a failed `new_page` does not advance the counter in the model. The source calls `allocate_page` only after a frame is found, so the two agree.
- BufferPool.BufferPoolManager.FlushAllPages: requires `fd >= 0`, so that blank frames, whose id is `INVALID_PAGE_ID`, are never written.
- The record handle and the scan keep their pages in one map from page number to page, and log their buffer-pool calls without running them. They therefore assume a pool that never holds a page twice, which the corrected `BufferPool.BufferPoolManager.NewPage` guarantees. The source's `new_page` does not guarantee it (see Findings). The record API can reach that bug: `get_record` of page `num_pages` makes that page resident as zeros, and the next `insert_record` with an empty free list creates the same page again in a second frame. Later evictions can then lose the inserted record, which the model does not capture.
- Record.RmFileHandle.InsertRecord: the `INT_MAX` no-free-slot branch is not modelled. Under the file invariant the chosen page always has a clear bit (`Record.FileInvInsertable`).
- Record.RmFileHandle.CreateNewPageHandle: a new page's slot bytes are zeros, not whatever the acquired frame held. Only slots whose bit is set are ever read.
- Record.RmFileHandle.CreateNewPageHandle: the new page's number is taken to be `num_pages`. Matching the buffer pool's counter to the file's page count is the record manager's job and is not part of this model.
- Record.RmFileHandle.GetRecord: requires `1 <= page_no` and a slot in `0 .. num_records_per_page-1`. Outside that range the source does not check, and what it does depends on the position:
  - a negative page number misses in the buffer pool; the frame acquired for it is given the page's id, `read_page` computes a negative offset and throws from the failed `lseek`, and the frame is left on no list, out of the page table and off the replacer, so each such call leaks one frame;
  - page 0 reads the file header page's bytes as if they were a data page;
  - a slot outside the range reads bytes outside the bitmap.
- Record.RmFileHandle.DeleteRecord: requires `1 <= page_no` and a slot in `0 .. num_records_per_page-1`, for the same reasons as `GetRecord`. Outside that range the source leaks a frame for a negative page, treats the header page as a data page for page 0, and for an out-of-range slot tests a bit outside the bitmap, resetting it if it happens to be set.
- Record.RmFileHandle.UpdateRecord: requires `1 <= page_no` and a slot in `0 .. num_records_per_page-1`, for the same reasons as `GetRecord`. Outside that range the source leaks a frame for a negative page, treats the header page as a data page for page 0, and for an out-of-range slot tests a bit outside the bitmap, copying the record to an address outside the slots if it happens to be set.
- Disk.DiskManager.ReadLog: `size` and `offset` are natural numbers, while `read_log` takes `int`. A negative offset passes the `offset > file_size` test, the ignored `lseek` failure leaves the read at the descriptor's current position, and a negative size reaches `read` as a huge count and fails the `assert`. None of this is modelled.
- Disk.ReadLogOf: takes `size` and `offset` as natural numbers. The negative arguments `read_log` accepts are not modelled.
- Disk.DiskManager.WritePage: a descriptor not opened through this manager always fails. The source never consults `fd2path_` here and works on any descriptor the operating system knows.
- Disk.DiskManager.ReadPage: a descriptor not opened through this manager always fails. The source's `read_page` never consults `fd2path_` and works on any descriptor the operating system knows.
- Scan.RmScan.SeekFrom: the scan's page fetches always find a frame. A fetch failure inside `next()` is not modelled. Because `next()` never unpins (`Scan.ScanLeaksPins`), a scan of a file with more data pages than the pool has frames runs out of frames in the source. That source scan then throws "Failed to fetch page" from `fetch_page_handle` (src/record/rm_file_handle.cpp:178-180). `Scan.FullScan`'s "visits every record" therefore holds in the source only for a file whose pages fit in the pool.
- Scan.RmScan.Next: keeps the search position in locals and assigns `rid_` once at the end, rather than moving `rid_` step by step. `next()` after the end is excluded by its precondition, because the source does not guard it.

## Findings

| source | as written | input that shows it | evidently intended | confidence | as-written member | corrected member |
|---|---|---|---|---|---|---|
| src/storage/buffer_pool_manager.cpp:72-102 | `new_page` takes the descriptor's next page number and maps it with `page_table_[*page_id] = frame_id`, without checking that the page is already resident. | A two-frame pool. `fetch_page((0, 0))` before any `new_page` on descriptor 0, then `new_page` on descriptor 0. Frames 0 and 1 both hold page (0, 0), and the table maps it to frame 1. Evicting frame 0 later erases that mapping (:42). The record API reaches the same state. Take a three-frame pool and a fresh record file whose page counter is 1. Call `get_record((1,0))`, `get_record((2,0))`, `insert_record(buf)` (which creates page 1 in a third frame), `get_record((3,0))` and `get_record((1,0))`. The fourth call evicts the zero frame of page 1 and erases the table entry, which points at the inserted frame. The last call reloads page 1 from disk as zeros and throws "Record does not exist" for the record just inserted. | A page is resident in at most one frame: `new_page` never maps a page that is already resident. | medium, not executed | BufferPool.NewPageDuplicatesId | BufferPool.BufferPoolManager.NewPage |
