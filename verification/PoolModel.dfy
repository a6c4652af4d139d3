/** Shared vocabulary of the buffer pool: pages, page keys and frames, as in
    `storage-engine/disk.h` and `storage-engine/buffer_frame.h`. */
module PoolModel {

  const PAGE_SIZE := 4096
  const MAX_TABLE_NAME_LEN := 64
  const INT_MAX := 0x7fff_ffff
  const LLONG_MAX := 0x7fff_ffff_ffff_ffff

  type byte = x: int | 0 <= x < 256

  function Zeros(n: nat): (s: seq<byte>)
    ensures |s| == n && forall i :: 0 <= i < n ==> s[i] == 0
  {
    seq(n, i => 0)
  }

  type PageData = s: seq<byte> | |s| == PAGE_SIZE witness Zeros(PAGE_SIZE)

  /** A table name that fits the name fields of frames and page table entries. */
  type TableName = s: string | |s| < MAX_TABLE_NAME_LEN witness ""

  datatype Key = Key(table: TableName, page: int)

  datatype FrameState = Free | Occupied | Pinned

  /** A BufferFrame.  A struct in an array of structs is a value that is overwritten in place. */
  datatype Frame = Frame(key: Key, state: FrameState, pinCount: int, dirty: bool, refBit: bool,
                         lastAccess: int, data: PageData)

  const ZERO_PAGE: PageData := Zeros(PAGE_SIZE)
  const EMPTY_FRAME := Frame(Key("", -1), Free, 0, false, false, 0, ZERO_PAGE)
}
