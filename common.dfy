/** Types and constants shared by the storage layers. */
module Common {

  /** One byte of page or file data. */
  newtype byte = x: int | 0 <= x < 256

  /** Size in bytes of one disk page (PAGE_SIZE). */
  const PAGE_SIZE: nat := 4096

  /** Sentinel for "no page" (INVALID_PAGE_ID). */
  const INVALID_PAGE_ID: int := -1

  /** Capacity of the disk manager's descriptor tables (MAX_FD). */
  const MAX_FD: nat := 1024

  /** Page identity: the descriptor of the open file and the page number in it. */
  datatype PageId = PageId(fd: int, pageNo: int)

  /** The identity a frame carries while it holds no page. */
  const INVALID_ID: PageId := PageId(INVALID_PAGE_ID, INVALID_PAGE_ID)

  datatype Option<T> = None | Some(value: T)

  datatype Result<T, E> = Ok(value: T) | Err(error: E)

  /** `n` zero bytes. */
  function Zeros(n: nat): seq<byte>
  {
    seq(n, _ => 0)
  }

  function Min(a: int, b: int): int
  {
    if a <= b then a else b
  }

  function Max(a: int, b: int): int
  {
    if a <= b then b else a
  }

  /** No element occurs twice in `s`. */
  ghost predicate NoDup<T>(s: seq<T>)
  {
    forall i, j :: 0 <= i < j < |s| ==> s[i] != s[j]
  }

  /** The set of elements of `s`. */
  ghost function Elems<T>(s: seq<T>): set<T>
  {
    set x | x in s
  }
}
