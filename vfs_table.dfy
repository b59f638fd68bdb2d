/** The user file descriptor table (UFDT) as a sequence of slots, each empty
    or holding one file table. */
module DescriptorTable {
  import opened VfsTypes
  import opened InodePool

  type Table = seq<Option<FileTable>>

  // ---------------------------------------------------------------------
  // The lowest-empty-slot search of create_file and open_file.

  function FirstEmptyFrom(t: Table, k: nat): (r: int)
    requires k <= |t|
    decreases |t| - k
    ensures r == -1 <==> forall i :: k <= i < |t| ==> t[i].Some?
    ensures r != -1 ==> k <= r < |t| && t[r].None? && forall i :: k <= i < r ==> t[i].Some?
  {
    if k == |t| then -1 else if t[k].None? then k else FirstEmptyFrom(t, k + 1)
  }

  function FirstEmptySlot(t: Table): int { FirstEmptyFrom(t, 0) }

  // ---------------------------------------------------------------------
  // get_file_desc: walk the slots from 0 while they are occupied, and stop at
  // the first one whose inode carries the name.

  /** Slot k ends the walk: it is empty, or its inode carries the name. */
  predicate ScanHalts(s: seq<Inode>, t: Table, name: string, k: int)
    requires 0 <= k < |t|
  {
    t[k].None? || (t[k].value.inode < |s| && s[t[k].value.inode].name == name)
  }

  /** Some slot ends the walk, so it never runs past the last slot. */
  ghost predicate ScanDefinedFrom(s: seq<Inode>, t: Table, name: string, k: nat)
  {
    exists j :: k <= j < |t| && ScanHalts(s, t, name, j)
  }

  function DescFrom(s: seq<Inode>, t: Table, name: string, k: nat): (r: int)
    requires ScanDefinedFrom(s, t, name, k)
    decreases |t| - k
    ensures r == -1 || (k <= r < |t| && t[r].Some? && ScanHalts(s, t, name, r))
    ensures r != -1 ==> forall i :: k <= i < r ==> !ScanHalts(s, t, name, i)
    ensures r == -1 ==> exists j :: k <= j < |t| && t[j].None? && forall i :: k <= i < j ==> !ScanHalts(s, t, name, i)
  {
    if t[k].None? then -1
    else if ScanHalts(s, t, name, k) then k
    else DescFrom(s, t, name, k + 1)
  }

  /** Slot 0 as the start of the walk. */
  ghost predicate ScanDefined(s: seq<Inode>, t: Table, name: string)
  {
    ScanDefinedFrom(s, t, name, 0)
  }

  /** get_file_desc: -1 for an unknown name; otherwise the first occupied slot
      of the walk bound to an inode with the name, or -1 when the walk meets an
      empty slot first. The slot found need not be the one the caller opened,
      and its inode need not be the live one. */
  function DescOf(s: seq<Inode>, t: Table, name: string): (r: int)
    requires HasLive(s, name) ==> ScanDefined(s, t, name)
    ensures !HasLive(s, name) ==> r == -1
    ensures r != -1 ==> 0 <= r < |t| && t[r].Some? && t[r].value.inode < |s| && s[t[r].value.inode].name == name
    ensures r != -1 ==> forall i :: 0 <= i < r ==> !ScanHalts(s, t, name, i)
    ensures HasLive(s, name) && r == -1 ==>
      exists j :: 0 <= j < |t| && t[j].None? && forall i :: 0 <= i < j ==> !ScanHalts(s, t, name, i)
  {
    if !HasLive(s, name) then -1 else DescFrom(s, t, name, 0)
  }

  // ---------------------------------------------------------------------
  // What every occupied slot keeps.

  predicate SlotOk(s: seq<Inode>, f: FileTable)
  {
    && f.inode < |s|
    && f.referenceCount == 1
    && 0 <= f.readOffset <= FILE_SIZE
    && 0 <= f.writeOffset <= FILE_SIZE
    && |s[f.inode].data| == FILE_SIZE
  }

  ghost predicate TableValid(s: seq<Inode>, t: Table)
  {
    forall k :: 0 <= k < |t| && t[k].Some? ==> SlotOk(s, t[k].value)
  }

  /** truncate_file's adjustment of the descriptor it finds: an offset above
      the new size comes down to it, an offset at or below stays. */
  function Clamp(f: FileTable, size: int): (r: FileTable)
    ensures r.inode == f.inode && r.mode == f.mode && r.referenceCount == f.referenceCount
    ensures r.readOffset <= size && r.writeOffset <= size
    ensures f.readOffset <= size ==> r.readOffset == f.readOffset
    ensures f.writeOffset <= size ==> r.writeOffset == f.writeOffset
    ensures f.readOffset > size ==> r.readOffset == size
    ensures f.writeOffset > size ==> r.writeOffset == size
  {
    f.(writeOffset := if f.writeOffset > size then size else f.writeOffset,
       readOffset := if f.readOffset > size then size else f.readOffset)
  }

  /** Changing inodes while keeping every data length leaves the table valid. */
  lemma TableValidSameLengths(s: seq<Inode>, s': seq<Inode>, t: Table)
    requires TableValid(s, t) && |s| == |s'|
    requires forall i :: 0 <= i < |s| ==> |s'[i].data| == |s[i].data|
    ensures TableValid(s', t)
  {
    forall k | 0 <= k < |t| && t[k].Some? ensures SlotOk(s', t[k].value) {
      assert SlotOk(s, t[k].value);
    }
  }

  /** Two tables with the same occupied slots, bound to the same inodes. */
  predicate SameShape(t: Table, t': Table)
  {
    && |t| == |t'|
    && forall i :: 0 <= i < |t| ==>
         t'[i].None? == t[i].None? && (t[i].Some? ==> t'[i].value.inode == t[i].value.inode)
  }

  /** The walk reads only inode names and which inode each slot is bound to:
      inodes changed in anything else, and slots changed in their offsets,
      leave get_file_desc's answer as it was. */
  lemma {:induction false} DescFromSame(s: seq<Inode>, s': seq<Inode>, t: Table, t': Table, name: string, k: nat)
    requires |s| == |s'| && forall i :: 0 <= i < |s| ==> s'[i].name == s[i].name
    requires SameShape(t, t')
    requires ScanDefinedFrom(s, t, name, k)
    decreases |t| - k
    ensures ScanDefinedFrom(s', t', name, k)
    ensures DescFrom(s', t', name, k) == DescFrom(s, t, name, k)
  {
    var j :| k <= j < |t| && ScanHalts(s, t, name, j);
    assert ScanHalts(s', t', name, j);
    if t[k].Some? && !ScanHalts(s, t, name, k) {
      DescFromSame(s, s', t, t', name, k + 1);
    }
  }

  /** The same for the whole of get_file_desc. */
  lemma DescOfSame(s: seq<Inode>, s': seq<Inode>, t: Table, t': Table, name: string)
    requires |s| == |s'|
    requires forall i :: 0 <= i < |s| ==> s'[i].name == s[i].name && s'[i].fileType == s[i].fileType
    requires SameShape(t, t')
    requires HasLive(s, name) ==> ScanDefined(s, t, name)
    ensures HasLive(s', name) == HasLive(s, name)
    ensures HasLive(s', name) ==> ScanDefined(s', t', name)
    ensures DescOf(s', t', name) == DescOf(s, t, name)
  {
    HasLiveSameNames(s, s', name);
    if HasLive(s, name) {
      DescFromSame(s, s', t, t', name, 0);
    }
  }
}
