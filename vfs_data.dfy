/** The byte-level effects on an inode's data buffer: memset and the string
    copy of write_file. */
module FileData {
  import opened VfsTypes

  /** A freshly cleared buffer of n bytes. */
  function Zeros(n: nat): (r: seq<Byte>)
    ensures |r| == n
    ensures forall k :: 0 <= k < n ==> r[k] == 0
  {
    seq(n, _ => 0)
  }

  /** memset(buf + lo, b, hi - lo): bytes [lo, hi) become b, the rest stay. */
  function FillRange(buf: seq<Byte>, lo: int, hi: int, b: Byte): (r: seq<Byte>)
    requires 0 <= lo <= hi <= |buf|
    ensures |r| == |buf|
    ensures forall k :: 0 <= k < |buf| ==> r[k] == if lo <= k < hi then b else buf[k]
  {
    buf[..lo] + seq(hi - lo, _ => b) + buf[hi..]
  }

  // ---------------------------------------------------------------------
  // write_file's copy, as written: the guard lets write_offset + n reach
  // FILE_SIZE, and strcpy stores n bytes and then a terminator.

  /** The guard of write_file: the request is refused only when it ends past FILE_SIZE. */
  predicate WriteGuardAdmits(writeOffset: int, n: int)
  {
    !(writeOffset + n > FILE_SIZE)
  }

  /** Whether strcpy, copying an n-byte string to buf + offset, stores to
      index k: it stores the n bytes and then the terminator after them. */
  predicate StrcpyStores(offset: int, n: nat, k: int)
  {
    offset <= k <= offset + n
  }

  /** The byte strcpy stores at index k when it copies src to buf + offset:
      the string's own byte, or the terminator right after it. */
  function StrcpyByte(offset: int, src: seq<Byte>, k: int): Byte
    requires StrcpyStores(offset, |src|, k)
  {
    if k < offset + |src| then src[k - offset] else 0
  }

  // ---------------------------------------------------------------------
  // The copy the rest of the model uses: the n bytes land at offset, the
  // terminator lands after them when that is still inside the buffer.

  function CopyTerminated(buf: seq<Byte>, offset: nat, src: seq<Byte>): (r: seq<Byte>)
    requires offset + |src| <= |buf|
    ensures |r| == |buf|
    ensures r[offset..offset + |src|] == src
    ensures offset + |src| < |buf| ==> r[offset + |src|] == 0
    ensures forall k :: 0 <= k < |buf| && (k < offset || k > offset + |src|) ==> r[k] == buf[k]
  {
    var end := offset + |src|;
    if end < |buf| then buf[..offset] + src + [0] + buf[end + 1..]
    else buf[..offset] + src
  }

  /** The corrected copy does every store of strcpy that lands inside the
      buffer, with strcpy's byte, and leaves every other byte alone. The only
      store it drops is the terminator, and it drops it exactly when the
      string ends at the end of the buffer. */
  lemma {:induction false} CopyTerminatedIsStrcpyInBuffer(buf: seq<Byte>, offset: nat, src: seq<Byte>)
    requires offset + |src| <= |buf|
    ensures forall k :: 0 <= k < |buf| ==>
              CopyTerminated(buf, offset, src)[k] == if StrcpyStores(offset, |src|, k) then StrcpyByte(offset, src, k) else buf[k]
    ensures StrcpyStores(offset, |src|, |buf|) <==> offset + |src| == |buf|
  {
    var r := CopyTerminated(buf, offset, src);
    forall k | 0 <= k < |buf|
      ensures r[k] == if StrcpyStores(offset, |src|, k) then StrcpyByte(offset, src, k) else buf[k]
    {
      if offset <= k < offset + |src| {
        assert r[k] == r[offset..offset + |src|][k - offset];
      }
    }
  }

  // ---------------------------------------------------------------------
  // Whole-inode effects of truncate_file and lseek.

  /** truncate_file on one inode whose name matches. Shrinking clears exactly
      [size, actual size) and keeps the bytes before size; growing clears the
      whole of [0, size), old content included. */
  function Truncated(x: Inode, size: int): (r: Inode)
    requires |x.data| == FILE_SIZE && 0 <= x.actualSize <= FILE_SIZE && 0 <= size <= FILE_SIZE
    ensures r == x.(actualSize := size, data := r.data)
    ensures |r.data| == FILE_SIZE
    ensures size <= x.actualSize ==>
              forall k :: 0 <= k < FILE_SIZE ==> r.data[k] == if size <= k < x.actualSize then 0 else x.data[k]
    ensures size > x.actualSize ==>
              forall k :: 0 <= k < FILE_SIZE ==> r.data[k] == if k < size then 0 else x.data[k]
  {
    if size <= x.actualSize then x.(data := FillRange(x.data, size, x.actualSize, 0), actualSize := size)
    else x.(actualSize := size, data := FillRange(x.data, 0, size, 0))
  }

  /** lseek to target on an inode: a target past the end fills the gap
      [actual size, target) with spaces and moves the end to target; a target
      at or before the end changes nothing. */
  function Extended(x: Inode, target: int): (r: Inode)
    requires |x.data| == FILE_SIZE && 0 <= x.actualSize && target <= FILE_SIZE
    ensures r == x.(actualSize := r.actualSize, data := r.data)
    ensures r.actualSize == Max(x.actualSize, target)
    ensures |r.data| == FILE_SIZE
    ensures forall k :: 0 <= k < FILE_SIZE ==> r.data[k] == if x.actualSize <= k < target then SPACE else x.data[k]
  {
    if target > x.actualSize then x.(data := FillRange(x.data, x.actualSize, target, SPACE), actualSize := target)
    else x
  }
}
