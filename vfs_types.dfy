/** Constants, records and mode tests of the simulated file system. */
module VfsTypes {

  // Opening modes and permissions are sums of these bits.
  const READ := 1
  const WRITE := 2
  const APPEND := 4

  // The status read_file gives when nothing is left to read.
  const END_OF_FILE := -4

  // file_type of an allocated inode; 0 marks a free inode.
  const REGULAR := 1
  const MAX_INODES := 50
  const FILE_SIZE := 1024

  // Size of the file_name buffer of an inode, terminator included.
  const NAME_SIZE := 50

  // Values of lseek's whence.
  const SEEK_SET := 0
  const SEEK_CUR := 1
  const SEEK_END := 2

  newtype Byte = b: int | 0 <= b < 256

  // The byte lseek writes into a gap it opens past the end of a file.
  const SPACE: Byte := 32

  datatype Option<T> = None | Some(value: T)

  /** One record of the inode list. data == [] stands for a file_data pointer
      that is still NULL; once allocated the buffer has FILE_SIZE bytes. */
  datatype Inode = Inode(
    name: string,
    inodeNumber: int,
    fileSize: int,
    actualSize: int,
    fileType: int,
    data: seq<Byte>,
    linkCount: int,
    referenceCount: int,
    permission: int)

  /** One open instance. `inode` is the index of the inode it points at. */
  datatype FileTable = FileTable(
    readOffset: int,
    writeOffset: int,
    referenceCount: int,
    mode: int,
    inode: nat)

  // Mode bit n of a mode in 1..7.
  function Bit(mode: int, n: nat): bool
  {
    var p := if n == 0 then 1 else if n == 1 then 2 else 4;
    (mode / p) % 2 == 1
  }

  /** The modes write_file accepts. */
  predicate CanWrite(mode: int)
    ensures CanWrite(mode) ==> 1 <= mode <= 7
    ensures 1 <= mode <= 7 ==> (CanWrite(mode) <==> Bit(mode, 1))
  {
    mode == WRITE || mode == READ + WRITE || mode == WRITE + APPEND || mode == READ + WRITE + APPEND
  }

  /** The modes read_file accepts. */
  predicate CanRead(mode: int)
    ensures CanRead(mode) ==> 1 <= mode <= 7
    ensures 1 <= mode <= 7 ==> (CanRead(mode) <==> Bit(mode, 0))
  {
    mode == READ || mode == READ + WRITE || mode == READ + APPEND || mode == READ + WRITE + APPEND
  }

  /** The modes for which open_file starts the write offset at the end of the file. */
  predicate AppendMode(mode: int)
    ensures AppendMode(mode) ==> 1 <= mode <= 7
    ensures 1 <= mode <= 7 ==> (AppendMode(mode) <==> Bit(mode, 2))
  {
    mode == READ + APPEND || mode == APPEND || mode == WRITE + APPEND || mode == READ + WRITE + APPEND
  }

  /** open_file's permission test as it is written: its last disjunct is the
      constant READ + WRITE + APPEND, a non-zero int and so always true, which
      makes every mode on a Write-only inode a denial. */
  predicate OpenDenied(permission: int, mode: int)
    ensures permission == WRITE ==> OpenDenied(permission, mode)
    ensures permission == READ ==> (OpenDenied(permission, mode) <==> mode in {2, 3, 6, 7})
    ensures permission != READ && permission != WRITE ==> !OpenDenied(permission, mode)
  {
    (permission == READ
      && (mode == WRITE || mode == READ + WRITE || mode == WRITE + APPEND || mode == READ + WRITE + APPEND))
    || (permission == WRITE
      && (mode == READ || mode == READ + WRITE || mode == READ + APPEND || (READ + WRITE + APPEND) != 0))
  }

  function Max(a: int, b: int): int { if a < b then b else a }
  function Min(a: int, b: int): int { if a < b then a else b }
}
