/**
 * The disk manager's bookkeeping over an abstract file system: page-addressed
 * reads and writes, the per-descriptor page counter, the open-descriptor
 * tables and the log-read arithmetic.  The file system is a map from path to
 * the file's bytes; the descriptor an `open` call hands back is a parameter.
 */
module Disk {
  import opened Common

  /** Name of the log file (LOG_FILE_NAME). */
  const LOG_FILE_NAME: string := "db.log"

  datatype Error =
    | FileExists(path: string)
    | FileNotFound(path: string)
    | FileNotOpen(fd: int)
    | Internal(msg: string)
    | Unix

  /** Byte offset at which page `pageNo` starts. */
  function PageOffset(pageNo: int): (r: int)
    ensures r >= 0 <==> pageNo >= 0
  {
    pageNo * PAGE_SIZE
  }

  /** A file's bytes after writing `data` at byte `off`; a gap past the old end reads as zeros. */
  function WriteAt(file: seq<byte>, off: nat, data: seq<byte>): (r: seq<byte>)
    ensures |r| == Max(|file|, off + |data|)
    ensures r[off..off + |data|] == data
    ensures forall i :: 0 <= i < |r| && (i < off || off + |data| <= i) ==>
      r[i] == if i < |file| then file[i] else 0
  {
    var padded := if off <= |file| then file else file + Zeros(off - |file|);
    padded[..off] + data + if off + |data| <= |padded| then padded[off + |data|..] else []
  }

  /** write_page on a file holding `file`: a negative offset makes the seek fail. */
  function WritePageOf(file: seq<byte>, pageNo: int, data: seq<byte>): (r: Result<seq<byte>, Error>)
    ensures r.Err? <==> pageNo < 0
    ensures r.Ok? ==> |r.value| == Max(|file|, PageOffset(pageNo) + |data|)
    ensures r.Ok? ==> r.value[PageOffset(pageNo)..PageOffset(pageNo) + |data|] == data
    ensures r.Ok? ==> forall i :: 0 <= i < |file| && (i < PageOffset(pageNo) || PageOffset(pageNo) + |data| <= i) ==>
      r.value[i] == file[i]
  {
    var off := PageOffset(pageNo);
    if off < 0 then Err(Internal("DiskManager::write_page lseek failed"))
    else Ok(WriteAt(file, off, data))
  }

  /**
   * read_page on a file holding `file`: an offset at or past the end yields
   * `numBytes` zeros, a failed seek or a short read is an error.
   */
  function ReadPageOf(file: seq<byte>, pageNo: int, numBytes: nat): (r: Result<seq<byte>, Error>)
    ensures PageOffset(pageNo) >= |file| ==> r == Ok(Zeros(numBytes))
    ensures pageNo < 0 ==> r.Err?
    ensures 0 <= PageOffset(pageNo) < |file| < PageOffset(pageNo) + numBytes ==> r.Err?
    ensures r.Ok? ==> |r.value| == numBytes
    ensures r.Ok? && PageOffset(pageNo) < |file| ==> r.value == file[PageOffset(pageNo)..PageOffset(pageNo) + numBytes]
    ensures r.Err? <==> pageNo < 0 || PageOffset(pageNo) < |file| < PageOffset(pageNo) + numBytes
  {
    var off := PageOffset(pageNo);
    if off >= |file| then Ok(Zeros(numBytes))
    else if off < 0 then Err(Internal("DiskManager::read_page lseek failed"))
    else if off + numBytes > |file| then Err(Internal("DiskManager::read_page Error"))
    else Ok(file[off..off + numBytes])
  }

  /** Reading a page back after writing it returns the written bytes. */
  lemma ReadAfterWrite(file: seq<byte>, pageNo: nat, data: seq<byte>)
    ensures WritePageOf(file, pageNo, data).Ok?
    ensures ReadPageOf(WritePageOf(file, pageNo, data).value, pageNo, |data|) == Ok(data)
  {
    var off := PageOffset(pageNo);
    var w := WriteAt(file, off, data);
    if data == [] {
      assert Zeros(0) == [];
      assert w[off..off] == [];
    }
  }

  /**
   * Writing at most a page to page `p` leaves every successful read of at most
   * a page from another page `q` as it was.
   */
  lemma WriteKeepsOtherPages(file: seq<byte>, p: nat, q: nat, data: seq<byte>, n: nat)
    requires p != q && |data| <= PAGE_SIZE && n <= PAGE_SIZE
    requires ReadPageOf(file, q, n).Ok?
    ensures ReadPageOf(WriteAt(file, PageOffset(p), data), q, n) == ReadPageOf(file, q, n)
  {
    var offP, offQ := PageOffset(p), PageOffset(q);
    var w := WriteAt(file, offP, data);
    assert p < q ==> offP + PAGE_SIZE <= offQ;
    assert q < p ==> offQ + PAGE_SIZE <= offP;
    if offQ >= |file| {
      if offQ < |w| {
        assert q < p && offQ + n <= offP;
        var got := w[offQ..offQ + n];
        forall j | 0 <= j < n ensures got[j] == Zeros(n)[j] {
          assert got[j] == w[offQ + j];
        }
        assert got == Zeros(n);
      }
    } else {
      assert offQ + n <= |file| <= |w|;
      var got, want := w[offQ..offQ + n], file[offQ..offQ + n];
      forall j | 0 <= j < n ensures got[j] == want[j] {
        assert got[j] == w[offQ + j] && want[j] == file[offQ + j];
      }
      assert got == want;
    }
  }

  /** What read_log reports: a byte count (-1 past the end) and the bytes read. */
  datatype LogRead = LogRead(count: int, data: seq<byte>)

  /** read_log on a log file holding `log`. */
  function ReadLogOf(log: seq<byte>, size: nat, offset: nat): (r: LogRead)
    ensures r.count == -1 <==> offset > |log|
    ensures offset <= |log| ==> r.count == Min(size, |log| - offset)
    ensures offset <= |log| ==> r.data == log[offset..offset + r.count]
    ensures offset > |log| ==> r.data == []
  {
    var fileSize := |log|;
    if offset > fileSize then LogRead(-1, [])
    else
      var n := Min(size, fileSize - offset);
      if n == 0 then LogRead(0, []) else LogRead(n, log[offset..offset + n])
  }

  /** Reading the log in two consecutive pieces yields what one read of both sizes yields. */
  lemma ReadLogInPieces(log: seq<byte>, a: nat, b: nat, offset: nat)
    requires offset <= |log|
    ensures var first := ReadLogOf(log, a, offset);
      var second := ReadLogOf(log, b, offset + first.count);
      first.data + second.data == ReadLogOf(log, a + b, offset).data
      && first.count + second.count == ReadLogOf(log, a + b, offset).count
  {
    var first := ReadLogOf(log, a, offset);
    var k := offset + first.count;
    assert log[offset..k] + log[k..k + ReadLogOf(log, b, k).count] ==
      log[offset..k + ReadLogOf(log, b, k).count];
  }

  class DiskManager {
    /** fd2pageno_: per descriptor, the page number allocate_page hands out next. */
    const fd2pageno: array<int>
    /** fd_occupied_: which descriptors this manager has opened. */
    const fdOccupied: array<bool>
    /** fd2path_: the path each occupied descriptor was opened on. */
    var fd2path: map<int, string>
    /** path2fd_: consulted by get_file_fd, never written. */
    var path2fd: map<string, int>
    /** The file system: every existing file's path and bytes. */
    var files: map<string, seq<byte>>

    /**
     * The descriptor tables have MAX_FD entries, a descriptor is occupied
     * exactly when it has a path, and an open file always exists.
     */
    ghost predicate Valid()
      reads this, fdOccupied
    {
      && fd2pageno.Length == MAX_FD
      && fdOccupied.Length == MAX_FD
      && (forall fd :: 0 <= fd < MAX_FD ==> (fdOccupied[fd] <==> fd in fd2path))
      && (forall fd :: fd in fd2path ==> 0 <= fd < MAX_FD && fd2path[fd] in files)
    }

    /** Some descriptor is open on `path`. */
    ghost predicate IsOpen(path: string)
      reads this
    {
      exists fd :: fd in fd2path && fd2path[fd] == path
    }

    /** A manager over the file system `fs`: all counters 0, nothing open. */
    constructor (fs: map<string, seq<byte>>)
      ensures Valid() && fresh(fd2pageno) && fresh(fdOccupied)
      ensures forall fd :: 0 <= fd < MAX_FD ==> fd2pageno[fd] == 0
      ensures fd2path == map[] && path2fd == map[] && files == fs
    {
      fd2pageno := new int[MAX_FD](_ => 0);
      fdOccupied := new bool[MAX_FD](_ => false);
      fd2path := map[];
      path2fd := map[];
      files := fs;
    }

    /** Hand out the next page number of `fd`. */
    method AllocatePage(fd: int) returns (pageNo: int)
      requires Valid() && 0 <= fd < MAX_FD
      modifies fd2pageno
      ensures Valid()
      ensures pageNo == old(fd2pageno[fd]) && fd2pageno[fd] == pageNo + 1
      ensures forall g :: 0 <= g < MAX_FD && g != fd ==> fd2pageno[g] == old(fd2pageno[g])
    {
      pageNo := fd2pageno[fd];
      fd2pageno[fd] := pageNo + 1;
    }

    /** Write `data` at page `pageNo` of the file open on `fd`. */
    method WritePage(fd: int, pageNo: int, data: seq<byte>) returns (r: Result<(), Error>)
      requires Valid()
      modifies this
      ensures Valid()
      ensures fd2path == old(fd2path) && path2fd == old(path2fd)
      ensures fd !in fd2path ==> r.Err? && files == old(files)
      ensures fd in fd2path ==>
        var w := WritePageOf(old(files)[fd2path[fd]], pageNo, data);
        (r.Ok? <==> w.Ok?) && files == if w.Ok? then old(files)[fd2path[fd] := w.value] else old(files)
    {
      if fd !in fd2path {
        return Err(Internal("DiskManager::write_page lseek failed"));
      }
      var path := fd2path[fd];
      var w := WritePageOf(files[path], pageNo, data);
      if w.Err? {
        return Err(w.error);
      }
      files := files[path := w.value];
      r := Ok(());
    }

    /** Read `numBytes` bytes of page `pageNo` of the file open on `fd`. */
    method ReadPage(fd: int, pageNo: int, numBytes: nat) returns (r: Result<seq<byte>, Error>)
      requires Valid()
      ensures fd !in fd2path ==> r.Err?
      ensures fd in fd2path ==> r == ReadPageOf(files[fd2path[fd]], pageNo, numBytes)
    {
      if fd !in fd2path {
        return Err(Internal("DiskManager::read_page fstat failed"));
      }
      r := ReadPageOf(files[fd2path[fd]], pageNo, numBytes);
    }

    /** is_file */
    predicate IsFile(path: string)
      reads this
      ensures IsFile(path) <==> GetFileSize(path) >= 0
    {
      path in files
    }

    /** Create an empty file; an existing path is refused. */
    method CreateFile(path: string) returns (r: Result<(), Error>)
      requires Valid()
      modifies this
      ensures Valid()
      ensures fd2path == old(fd2path) && path2fd == old(path2fd)
      ensures path in old(files) ==> r == Err(FileExists(path)) && files == old(files)
      ensures path !in old(files) ==> r == Ok(()) && files == old(files)[path := []]
    {
      if IsFile(path) {
        return Err(FileExists(path));
      }
      files := files[path := []];
      r := Ok(());
    }

    /** Remove a file; a missing path or a path some descriptor is open on is refused. */
    method DestroyFile(path: string) returns (r: Result<(), Error>)
      requires Valid()
      modifies this
      ensures Valid()
      ensures fd2path == old(fd2path) && path2fd == old(path2fd)
      ensures path !in old(files) ==> r == Err(FileNotFound(path)) && files == old(files)
      ensures path in old(files) && IsOpen(path) ==>
        r == Err(Internal("Cannot destroy opened file")) && files == old(files)
      ensures path in old(files) && !IsOpen(path) ==> r == Ok(()) && files == old(files) - {path}
    {
      if !IsFile(path) {
        return Err(FileNotFound(path));
      }
      var fd := 0;
      while fd < MAX_FD
        invariant 0 <= fd <= MAX_FD
        invariant forall g :: 0 <= g < fd && g in fd2path ==> fd2path[g] != path
      {
        if fdOccupied[fd] && fd2path[fd] == path {
          return Err(Internal("Cannot destroy opened file"));
        }
        fd := fd + 1;
      }
      files := files - {path};
      r := Ok(());
    }

    /** Open `path`; `osFd` is what the operating system's open returns (-1 on failure). */
    method OpenFile(path: string, osFd: int) returns (r: Result<int, Error>)
      requires Valid() && osFd >= -1
      modifies this, fdOccupied
      ensures Valid()
      ensures files == old(files) && path2fd == old(path2fd)
      ensures (r, fd2path) == OpenOutcome(old(files), old(fd2path), path, osFd)
    {
      if !IsFile(path) {
        return Err(FileNotFound(path));
      }
      if osFd == -1 {
        return Err(Unix);
      }
      if osFd >= MAX_FD {
        return Err(Internal("Too many files opened"));
      }
      if fdOccupied[osFd] {
        return Err(Internal("File descriptor already occupied"));
      }
      fdOccupied[osFd] := true;
      fd2path := fd2path[osFd := path];
      r := Ok(osFd);
    }

    /** Close `fd`; an out-of-range or unoccupied descriptor is refused. */
    method CloseFile(fd: int) returns (r: Result<(), Error>)
      requires Valid()
      modifies this, fdOccupied
      ensures Valid()
      ensures files == old(files) && path2fd == old(path2fd)
      ensures (fd < 0 || fd >= MAX_FD) ==>
        r == Err(Internal("Invalid file descriptor")) && fd2path == old(fd2path)
      ensures 0 <= fd < MAX_FD && fd !in old(fd2path) ==>
        r == Err(Internal("File not opened")) && fd2path == old(fd2path)
      ensures fd in old(fd2path) ==> r == Ok(()) && fd2path == old(fd2path) - {fd}
    {
      if fd < 0 || fd >= MAX_FD {
        return Err(Internal("Invalid file descriptor"));
      }
      if !fdOccupied[fd] {
        return Err(Internal("File not opened"));
      }
      fdOccupied[fd] := false;
      fd2path := fd2path - {fd};
      r := Ok(());
    }

    /** get_file_name: the path `fd` was opened on. */
    method GetFileName(fd: int) returns (r: Result<string, Error>)
      requires Valid()
      ensures fd !in fd2path ==> r == Err(FileNotOpen(fd))
      ensures fd in fd2path ==> r == Ok(fd2path[fd]) && r.value in files
    {
      if fd !in fd2path {
        return Err(FileNotOpen(fd));
      }
      r := Ok(fd2path[fd]);
    }

    /** get_file_fd: the path2fd_ entry, else open the file. */
    method GetFileFd(path: string, osFd: int) returns (r: Result<int, Error>)
      requires Valid() && osFd >= -1
      modifies this, fdOccupied
      ensures Valid()
      ensures files == old(files) && path2fd == old(path2fd)
      ensures path in old(path2fd) ==> r == Ok(old(path2fd)[path]) && fd2path == old(fd2path)
      ensures path !in old(path2fd) ==> (r, fd2path) == OpenOutcome(old(files), old(fd2path), path, osFd)
    {
      if path in path2fd {
        return Ok(path2fd[path]);
      }
      r := OpenFile(path, osFd);
    }

    /** get_file_size: the file's length, -1 when it does not exist. */
    function GetFileSize(path: string): (r: int)
      reads this
      ensures r == -1 <==> path !in files
      ensures path in files ==> r == |files[path]|
    {
      if path in files then |files[path]| else -1
    }

    /** read_log: up to `size` bytes of the log file from byte `offset`. */
    method ReadLog(size: nat, offset: nat) returns (r: Result<LogRead, Error>)
      requires Valid()
      ensures LOG_FILE_NAME !in files ==> r == Err(FileNotFound(LOG_FILE_NAME))
      ensures LOG_FILE_NAME in files ==> r == Ok(ReadLogOf(files[LOG_FILE_NAME], size, offset))
    {
      if LOG_FILE_NAME !in files {
        return Err(FileNotFound(LOG_FILE_NAME));
      }
      var fileSize := GetFileSize(LOG_FILE_NAME);
      if offset > fileSize {
        return Ok(LogRead(-1, []));
      }
      var n := Min(size, fileSize - offset);
      if n == 0 {
        return Ok(LogRead(0, []));
      }
      r := Ok(LogRead(n, files[LOG_FILE_NAME][offset..offset + n]));
    }
  }

  /**
   * open_file's outcome and the new descriptor-to-path table: missing path,
   * failed system call, descriptor beyond the table, descriptor already
   * occupied, or success; the path itself is never compared with open files.
   */
  function OpenOutcome(files: map<string, seq<byte>>, fd2path: map<int, string>, path: string, osFd: int):
    (o: (Result<int, Error>, map<int, string>))
    ensures o.0.Ok? <==> path in files && 0 <= osFd < MAX_FD && osFd !in fd2path
    ensures o.0.Ok? ==> o.0.value == osFd && o.1 == fd2path[osFd := path]
    ensures o.0.Err? ==> o.1 == fd2path
  {
    if path !in files then (Err(FileNotFound(path)), fd2path)
    else if osFd == -1 then (Err(Unix), fd2path)
    else if osFd >= MAX_FD then (Err(Internal("Too many files opened")), fd2path)
    else if osFd < 0 || osFd in fd2path then (Err(Internal("File descriptor already occupied")), fd2path)
    else (Ok(osFd), fd2path[osFd := path])
  }
}
