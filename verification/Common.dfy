/** Shared types and constants: the machine integers of the storage engine, with their
    widths, and the sizes every layer agrees on. */
module Common {

  const U32_LIMIT: int := 0x1_0000_0000

  type byte = x: int | 0 <= x < 256
  type u32 = x: int | 0 <= x < 0x1_0000_0000
  type PageId = u32
  type FrameId = u32

  const PAGE_SIZE: int := 8192
  const DB_IO_SIZE: int := 16
  const INVALID_PAGE_ID: PageId := 0xffff_ffff

  /** The image of one page: exactly `PAGE_SIZE` bytes. */
  type Page = s: seq<byte> | |s| == 8192 witness seq(8192, i => 0)

  function ZeroPage(): (p: Page)
    ensures forall i :: 0 <= i < 8192 ==> p[i] == 0
  {
    seq(8192, i => 0)
  }

  datatype Option<+T> = None | Some(value: T)

  /** The result of an operation that may abort the program: a Rust panic ends the run. */
  datatype Outcome<+T> = Panic | Done(value: T)

  /** `s` with `x` placed right after position `p`. */
  function InsertAfter<T>(s: seq<T>, p: nat, x: T): (r: seq<T>)
    requires p < |s|
  {
    s[..p + 1] + [x] + s[p + 1..]
  }

  /** `s` without the element at position `i`. */
  function RemoveAt<T>(s: seq<T>, i: nat): (r: seq<T>)
    requires i < |s|
  {
    s[..i] + s[i + 1..]
  }

  ghost predicate NoDuplicates<T>(s: seq<T>) {
    forall i, j :: 0 <= i < j < |s| ==> s[i] != s[j]
  }
}
