/** The file system's global state -- the inode list, the UFDT and the
    superblock -- as one object, with one method per operation of the engine.
    Return values are the source's C integers. */
module VirtualFileSystem {
  import opened VfsTypes
  import opened FileData
  import opened InodePool
  import opened DescriptorTable

  /** create_file gets past its three checks and allocates. */
  ghost predicate CreateAllocates(s: seq<Inode>, freeInodes: int, name: string, permission: int)
  {
    !(permission == 0 || permission > 3) && freeInodes != 0 && !HasLive(s, name)
  }

  /** open_file's permission check fails on the first inode carrying the name. */
  ghost predicate OpenRefused(s: seq<Inode>, name: string, mode: int)
  {
    var j := FirstNamed(s, name);
    HasLive(s, name) && 1 <= mode <= 7 && 0 <= j < |s| && OpenDenied(s[j].permission, mode)
  }

  /** open_file gets past its three checks and allocates. */
  ghost predicate OpenAllocates(s: seq<Inode>, name: string, mode: int)
  {
    HasLive(s, name) && 1 <= mode <= 7 && !OpenRefused(s, name, mode)
  }

  /** read_file, write_file and lseek pass is_file_exists and is_open and go on
      to use get_file_desc's answer. */
  ghost predicate ReachesDesc(s: seq<Inode>, name: string)
  {
    HasLive(s, name) && OpenStatus(s, name) == 1
  }

  /** get_file_desc stays inside the table and finds a slot. */
  ghost predicate DescUsable(s: seq<Inode>, t: Table, name: string)
  {
    ScanDefined(s, t, name) && DescOf(s, t, name) != -1
  }

  /** write_file gets past its mode, file type and size checks on the slot
      get_file_desc answers. */
  ghost predicate WritePasses(s: seq<Inode>, t: Table, name: string, n: int)
  {
    && DescUsable(s, t, name)
    && var f := t[DescOf(s, t, name)].value;
       f.inode < |s| && CanWrite(f.mode) && s[f.inode].fileType == REGULAR && WriteGuardAdmits(f.writeOffset, n)
  }

  /** write_file's copy, once its checks pass, stays inside the buffer and
      leaves the write offset non-negative. */
  ghost predicate WriteDefined(s: seq<Inode>, t: Table, name: string, data: seq<Byte>, n: int)
  {
    && DescUsable(s, t, name)
    && var f := t[DescOf(s, t, name)].value;
       (WritePasses(s, t, name, n) ==> f.writeOffset + |data| <= FILE_SIZE && 0 <= f.writeOffset + n)
  }

  /** In every valid state where write_file gets past its checks with a
      string that ends exactly at FILE_SIZE (the shell passes the string's
      length as n), the source's strcpy stores its terminator at index
      FILE_SIZE, which is the length of the inode's buffer: one past its end. */
  lemma WriteStoresPastBuffer(s: seq<Inode>, t: Table, name: string, data: seq<Byte>)
    requires PoolValid(s) && TableValid(s, t)
    requires DescUsable(s, t, name) && WritePasses(s, t, name, |data|)
    requires t[DescOf(s, t, name)].value.writeOffset + |data| == FILE_SIZE
    ensures var f := t[DescOf(s, t, name)].value;
            f.inode < |s| && |s[f.inode].data| == FILE_SIZE && StrcpyStores(f.writeOffset, |data|, |s[f.inode].data|)
  {
    var f := t[DescOf(s, t, name)].value;
    assert SlotOk(s, f);
  }

  /** read_file's console write gets a count that is not negative. */
  ghost predicate ReadDefined(s: seq<Inode>, t: Table, name: string, n: int)
  {
    && DescUsable(s, t, name)
    && var f := t[DescOf(s, t, name)].value;
       (f.inode < |s| && CanRead(f.mode) && s[f.inode].actualSize != f.readOffset ==>
          n >= 0 && f.readOffset <= s[f.inode].actualSize)
  }

  /** lseek's memset stays inside the buffer. */
  ghost predicate SeekDefined(s: seq<Inode>, t: Table, name: string, offset: int, whence: int)
  {
    && DescUsable(s, t, name)
    && var f := t[DescOf(s, t, name)].value;
       (whence == SEEK_SET ==> offset <= FILE_SIZE)
       && (whence == SEEK_END && f.inode < |s| ==> s[f.inode].actualSize + offset <= FILE_SIZE)
  }

  /** truncate_file's memsets stay inside allocated buffers, and its
      get_file_desc finds a slot when the file is open. */
  ghost predicate TruncateDefined(s: seq<Inode>, t: Table, name: string, size: int)
  {
    && 0 <= size <= FILE_SIZE
    && (forall i :: 0 <= i < |s| && s[i].name == name ==> |s[i].data| == FILE_SIZE)
    && (OpenStatus(s, name) == 1 ==> DescUsable(s, t, name))
  }

  /** Truncated on an inode that carries the name and can be truncated; any
      other inode as it is. */
  function TruncatedIfNamed(x: Inode, name: string, size: int): (r: Inode)
    ensures x.name == name && |x.data| == FILE_SIZE && 0 <= x.actualSize <= FILE_SIZE && 0 <= size <= FILE_SIZE
            ==> r == Truncated(x, size)
    ensures x.name != name ==> r == x
  {
    if x.name == name && |x.data| == FILE_SIZE && 0 <= x.actualSize <= FILE_SIZE && 0 <= size <= FILE_SIZE
    then Truncated(x, size) else x
  }

  /** The inode list once truncate_file's loop has passed the first k inodes. */
  ghost function TruncatedPrefix(s: seq<Inode>, name: string, size: int, k: nat): (r: seq<Inode>)
    requires k <= |s|
    ensures |r| == |s|
    ensures forall i :: 0 <= i < |s| ==> r[i] == if i < k then TruncatedIfNamed(s[i], name, size) else s[i]
  {
    seq(|s|, i requires 0 <= i < |s| => if i < k then TruncatedIfNamed(s[i], name, size) else s[i])
  }

  lemma TruncatedPrefixStep(s: seq<Inode>, name: string, size: int, k: nat)
    requires k < |s|
    ensures TruncatedPrefix(s, name, size, k + 1) == TruncatedPrefix(s, name, size, k)[k := TruncatedIfNamed(s[k], name, size)]
  {
  }

  /** Truncation changes sizes and bytes only. */
  lemma TruncatedPrefixKeeps(s: seq<Inode>, name: string, size: int, k: nat)
    requires k <= |s|
    ensures forall i :: 0 <= i < |s| ==>
      var x := TruncatedPrefix(s, name, size, k)[i];
      x.name == s[i].name && x.fileType == s[i].fileType && x.referenceCount == s[i].referenceCount
      && |x.data| == |s[i].data|
  {
  }

  /** The descriptor table once truncate_file's loop has passed the first k
      inodes: the slot get_file_desc answers is clamped from the first inode
      carrying the name on, when the file is open. */
  ghost function TruncatedTable(s: seq<Inode>, t: Table, name: string, size: int, k: nat): (r: Table)
    requires HasLive(s, name) && TruncateDefined(s, t, name, size)
    ensures SameShape(t, r)
    ensures forall i :: 0 <= i < |t| && r[i] != t[i] ==>
              OpenStatus(s, name) == 1 && FirstNamed(s, name) < k && i == DescOf(s, t, name)
  {
    if OpenStatus(s, name) == 1 && FirstNamed(s, name) < k
    then var d := DescOf(s, t, name); t[d := Some(Clamp(t[d].value, size))]
    else t
  }

  /** Passing inode k clamps the slot when k is the first inode carrying the
      name of an open file, and changes nothing otherwise; clamping keeps the
      shape of the table. */
  lemma TruncatedTableStep(s: seq<Inode>, t: Table, name: string, size: int, k: nat)
    requires HasLive(s, name) && TruncateDefined(s, t, name, size) && NoShadow(s) && k < |s|
    ensures SameShape(t, TruncatedTable(s, t, name, size, k))
    ensures s[k].name != name || OpenStatus(s, name) != 1 ==>
      TruncatedTable(s, t, name, size, k + 1) == TruncatedTable(s, t, name, size, k)
    ensures s[k].name == name && OpenStatus(s, name) == 1 ==>
      var d := DescOf(s, t, name);
      var u := TruncatedTable(s, t, name, size, k);
      0 <= d < |u| && u[d].Some? && TruncatedTable(s, t, name, size, k + 1) == u[d := Some(Clamp(u[d].value, size))]
  {
    FirstNamedIsLive(s, name);
    if OpenStatus(s, name) == 1 {
      var d := DescOf(s, t, name);
      assert Clamp(Clamp(t[d].value, size), size) == Clamp(t[d].value, size);
    }
  }

  datatype FstatOutcome = InvalidDescriptor | NotOpened | Info(inode: Inode)

  class FileSystem {
    const inodes: array<Inode>
    const ufdt: array<Option<FileTable>>
    var totalInodes: int
    var freeInodes: int

    ghost function Pool(): seq<Inode> reads inodes { inodes[..] }
    ghost function Slots(): Table reads ufdt { ufdt[..] }

    /** The superblock counts the free inodes, and the inode list and the
        table keep the facts of PoolValid and TableValid. */
    ghost predicate Valid()
      reads this, inodes, ufdt
    {
      && inodes.Length == MAX_INODES
      && ufdt.Length == MAX_INODES
      && totalInodes == MAX_INODES
      && PoolValid(inodes[..])
      && TableValid(inodes[..], ufdt[..])
      && freeInodes == CountFree(inodes[..])
    }

    /** create_dilb followed by initialize_superblock. The name and file_size
        of a new inode are left uninitialised by the source; here they are ""
        and 0. */
    constructor ()
      ensures Valid()
      ensures forall i :: 0 <= i < MAX_INODES ==> inodes[i] == Inode("", i + 1, 0, 0, 0, [], 0, 0, 0)
      ensures forall k :: 0 <= k < MAX_INODES ==> ufdt[k].None?
      ensures freeInodes == MAX_INODES
      ensures fresh(inodes) && fresh(ufdt)
    {
      var pool := new Inode[MAX_INODES];
      var counter := 1;
      while counter <= MAX_INODES
        invariant 1 <= counter <= MAX_INODES + 1
        invariant forall i :: 0 <= i < counter - 1 ==> pool[i] == Inode("", i + 1, 0, 0, 0, [], 0, 0, 0)
      {
        pool[counter - 1] := Inode("", counter, 0, 0, 0, [], 0, 0, 0);
        counter := counter + 1;
      }
      var table := new Option<FileTable>[MAX_INODES];
      counter := 0;
      while counter < MAX_INODES
        invariant 0 <= counter <= MAX_INODES
        invariant forall k :: 0 <= k < counter ==> table[k].None?
        invariant forall i :: 0 <= i < MAX_INODES ==> pool[i] == Inode("", i + 1, 0, 0, 0, [], 0, 0, 0)
      {
        table[counter] := None;
        counter := counter + 1;
      }
      inodes := pool;
      ufdt := table;
      totalInodes := MAX_INODES;
      freeInodes := MAX_INODES;
      new;
      CountFreeAllFree(inodes[..]);
    }

    // -------------------------------------------------------------------
    // Lookup helpers.

    /** get_free_inode: the first free inode of the list, -1 for none. */
    method GetFreeInode() returns (r: int)
      requires Valid()
      ensures r == FirstFree(Pool())
    {
      var counter := 0;
      while counter < inodes.Length
        invariant 0 <= counter <= inodes.Length
        invariant FirstFreeFrom(inodes[..], counter) == FirstFree(inodes[..])
      {
        if inodes[counter].fileType == 0 {
          return counter;
        }
        counter := counter + 1;
      }
      return -1;
    }

    /** is_file_exists: 1 when an allocated inode carries the name, else 0. */
    method IsFileExists(name: string) returns (r: int)
      requires Valid()
      ensures r == 1 <==> HasLive(Pool(), name)
      ensures r == 0 <==> !HasLive(Pool(), name)
    {
      var counter := 0;
      while counter < inodes.Length
        invariant 0 <= counter <= inodes.Length
        invariant forall i :: 0 <= i < counter ==> !(inodes[i].name == name && inodes[i].fileType != 0)
      {
        if inodes[counter].name == name && inodes[counter].fileType != 0 {
          assert inodes[..][counter] == inodes[counter];
          return 1;
        }
        counter := counter + 1;
      }
      return 0;
    }

    /** get_existing_inode: the first inode carrying the name, free or not. */
    method GetExistingInode(name: string) returns (r: int)
      requires Valid()
      ensures r == FirstNamed(Pool(), name)
    {
      var counter := 0;
      while counter < inodes.Length
        invariant 0 <= counter <= inodes.Length
        invariant FirstNamedFrom(inodes[..], name, counter) == FirstNamed(inodes[..], name)
      {
        if inodes[counter].name == name {
          return counter;
        }
        counter := counter + 1;
      }
      return -1;
    }

    /** is_open: -1, 0 or 1 as OpenStatus says -- the reference count of the
        inode is consulted, not the table. */
    method IsOpen(name: string) returns (r: int)
      requires Valid()
      ensures r == OpenStatus(Pool(), name)
    {
      var e := IsFileExists(name);
      if e == 0 {
        return -1;
      }
      var counter := 0;
      while counter < inodes.Length
        invariant 0 <= counter <= inodes.Length
        invariant FirstNamedFrom(inodes[..], name, counter) == FirstNamed(inodes[..], name)
      {
        if inodes[counter].name == name {
          if inodes[counter].referenceCount != 0 {
            return 1;
          }
          return 0;
        }
        counter := counter + 1;
      }
      return 0;
    }

    /** get_file_desc: DescOf, the walk that stops at the first empty slot. */
    method GetFileDesc(name: string) returns (r: int)
      requires Valid()
      requires HasLive(Pool(), name) ==> ScanDefined(Pool(), Slots(), name)
      ensures r == DescOf(Pool(), Slots(), name)
    {
      var e := IsFileExists(name);
      if e == 0 {
        return -1;
      }
      var counter := 0;
      while ufdt[counter].Some?
        invariant 0 <= counter < ufdt.Length
        invariant ScanDefinedFrom(inodes[..], ufdt[..], name, counter)
        invariant DescFrom(inodes[..], ufdt[..], name, counter) == DescFrom(inodes[..], ufdt[..], name, 0)
        decreases ufdt.Length - counter
      {
        assert SlotOk(inodes[..], ufdt[..][counter].value);
        if inodes[ufdt[counter].value.inode].name == name {
          return counter;
        }
        ghost var j :| counter <= j < ufdt.Length && ScanHalts(inodes[..], ufdt[..], name, j);
        assert j != counter;
        counter := counter + 1;
      }
      return -1;
    }

    /** stat: the inode it prints, the first one carrying the name, which is
        the allocated one; None when no allocated inode has the name. */
    method Stat(name: string) returns (r: Option<Inode>)
      requires Valid()
      ensures r.None? <==> !HasLive(Pool(), name)
      ensures r.Some? ==> r.value == Pool()[FirstNamed(Pool(), name)] && !IsFree(r.value) && r.value.name == name
    {
      var e := IsFileExists(name);
      if e == 0 {
        return None;
      }
      FirstNamedIsLive(inodes[..], name);
      var counter := 0;
      while counter < inodes.Length
        invariant 0 <= counter <= inodes.Length
        invariant FirstNamedFrom(inodes[..], name, counter) == FirstNamed(inodes[..], name)
      {
        if inodes[counter].name == name {
          return Some(inodes[counter]);
        }
        counter := counter + 1;
      }
      assert false;
      return None;
    }

    /** fstat: a negative descriptor is invalid, an empty slot is not open,
        otherwise the inode of the slot's file table. */
    method Fstat(fd: int) returns (r: FstatOutcome)
      requires Valid()
      requires fd < MAX_INODES
      ensures fd < 0 <==> r == InvalidDescriptor
      ensures r == NotOpened <==> 0 <= fd && Slots()[fd].None?
      ensures r.Info? ==> 0 <= fd && Slots()[fd].Some? && r.inode == Pool()[Slots()[fd].value.inode]
    {
      if fd < 0 {
        return InvalidDescriptor;
      }
      if ufdt[fd].None? {
        return NotOpened;
      }
      assert SlotOk(inodes[..], ufdt[..][fd].value);
      return Info(inodes[ufdt[fd].value.inode]);
    }

    /** display_file_list: the names of the allocated inodes in list order. */
    method DisplayFileList() returns (names: seq<string>)
      requires Valid()
      ensures names == LiveNames(Pool())
    {
      if freeInodes == MAX_INODES {
        return [];
      }
      names := [];
      var counter := 0;
      while counter < inodes.Length
        invariant 0 <= counter <= inodes.Length
        invariant LiveNames(inodes[..]) == names + LiveNames(inodes[counter..])
      {
        assert inodes[counter..][1..] == inodes[counter + 1..];
        if inodes[counter].fileType != 0 {
          names := names + [inodes[counter].name];
        }
        counter := counter + 1;
      }
      assert inodes[counter..] == [];
    }

    // -------------------------------------------------------------------
    // Operations.

    /** The lowest empty slot, the loop create_file and open_file share. */
    method FindEmptySlot() returns (r: int)
      requires Valid()
      ensures r == FirstEmptySlot(Slots())
    {
      var counter := 0;
      while counter < ufdt.Length
        invariant 0 <= counter <= ufdt.Length
        invariant FirstEmptyFrom(ufdt[..], counter) == FirstEmptySlot(ufdt[..])
      {
        if ufdt[counter].None? {
          return counter;
        }
        counter := counter + 1;
      }
      return -1;
    }

    /** create_file: -1 for a permission of 0 or above 3, -2 when no inode is
        free, -3 when the name is taken; otherwise the lowest empty slot gets a
        file table in mode `permission` bound to the first free inode, which
        becomes a regular, empty, zero-filled file with the name. */
    method CreateFile(name: string, permission: int) returns (r: int)
      requires Valid()
      requires |name| < NAME_SIZE
      requires CreateAllocates(Pool(), freeInodes, name, permission) ==> FirstEmptySlot(Slots()) != -1
      modifies this, inodes, ufdt
      ensures Valid()
      ensures permission == 0 || permission > 3 ==> r == -1
      ensures !(permission == 0 || permission > 3) && old(freeInodes) == 0 ==> r == -2
      ensures !(permission == 0 || permission > 3) && old(freeInodes) != 0 && HasLive(old(Pool()), name) ==> r == -3
      ensures r < 0 ==> Pool() == old(Pool()) && Slots() == old(Slots()) && freeInodes == old(freeInodes)
      ensures CreateAllocates(old(Pool()), old(freeInodes), name, permission) ==>
        var j := FirstFree(old(Pool()));
        && r == FirstEmptySlot(old(Slots()))
        && 0 <= j < MAX_INODES
        && Slots() == old(Slots())[r := Some(FileTable(0, 0, 1, permission, j))]
        && Pool() == old(Pool())[j := Created(old(Pool())[j], name, permission)]
        && freeInodes == old(freeInodes) - 1
    {
      if permission == 0 || permission > 3 {
        return -1;
      }
      if freeInodes == 0 {
        return -2;
      }
      var e := IsFileExists(name);
      if e == 1 {
        return -3;
      }
      var counter := FindEmptySlot();
      FreeCountFindsInode(inodes[..]);
      CreateKeepsPool(inodes[..], name, permission);
      var j := GetFreeInode();
      ufdt[counter] := Some(FileTable(0, 0, 1, permission, j));
      inodes[j] := Created(inodes[j], name, permission);
      freeInodes := freeInodes - 1;
      return counter;
    }

    /** open_file: -1 for an unknown name, -2 for a mode outside 1..7, -3 when
        the permission check refuses; otherwise the lowest empty slot gets a
        file table in `mode` bound to the file's inode, with the write offset at
        the end of the file for the append modes and at 0 for the others, and
        the inode's reference count goes up by one. */
    method OpenFile(name: string, mode: int) returns (r: int)
      requires Valid()
      requires OpenAllocates(Pool(), name, mode) ==> FirstEmptySlot(Slots()) != -1
      modifies inodes, ufdt
      ensures Valid()
      ensures !HasLive(old(Pool()), name) ==> r == -1
      ensures HasLive(old(Pool()), name) && (mode < 1 || mode > 7) ==> r == -2
      ensures OpenRefused(old(Pool()), name, mode) ==> r == -3
      ensures r < 0 ==> Pool() == old(Pool()) && Slots() == old(Slots())
      ensures OpenAllocates(old(Pool()), name, mode) ==>
        var j := FirstNamed(old(Pool()), name);
        var x := old(Pool())[j];
        && r == FirstEmptySlot(old(Slots()))
        && Slots() == old(Slots())[r := Some(FileTable(0, if AppendMode(mode) then x.actualSize else 0, 1, mode, j))]
        && Pool() == old(Pool())[j := x.(referenceCount := x.referenceCount + 1)]
    {
      var e := IsFileExists(name);
      if e == 0 {
        return -1;
      }
      if mode < 1 || mode > 7 {
        return -2;
      }
      var j := GetExistingInode(name);
      FirstNamedIsLive(inodes[..], name);
      if OpenDenied(inodes[j].permission, mode) {
        return -3;
      }
      var counter := FindEmptySlot();
      var x := inodes[j];
      UpdateKeepsPool(inodes[..], j, x.(referenceCount := x.referenceCount + 1));
      inodes[j] := x.(referenceCount := x.referenceCount + 1);
      var writeOffset := if AppendMode(mode) then x.actualSize else 0;
      ufdt[counter] := Some(FileTable(0, writeOffset, 1, mode, j));
      return counter;
    }

    /** close_file: -1 for an empty slot; otherwise the file table's reference
        count drops, and once it reaches 0 -- which, with one reference per
        table, is at once -- the slot is emptied and the inode's reference
        count drops by one. */
    method CloseFile(fd: int) returns (r: int)
      requires Valid()
      requires 0 <= fd < MAX_INODES
      modifies inodes, ufdt
      ensures Valid()
      ensures old(Slots())[fd].None? ==> r == -1 && Slots() == old(Slots()) && Pool() == old(Pool())
      ensures old(Slots())[fd].Some? ==>
        var i := old(Slots())[fd].value.inode;
        && r == 0
        && i < MAX_INODES
        && Slots() == old(Slots())[fd := None]
        && Pool() == old(Pool())[i := old(Pool())[i].(referenceCount := old(Pool())[i].referenceCount - 1)]
    {
      if ufdt[fd].None? {
        return -1;
      }
      var f := ufdt[fd].value;
      assert SlotOk(inodes[..], ufdt[..][fd].value);
      var i := f.inode;
      ufdt[fd] := Some(f.(referenceCount := f.referenceCount - 1));
      if ufdt[fd].value.referenceCount == 0 {
        ufdt[fd] := None;
        CountFreeUpdate(inodes[..], i, inodes[i].(referenceCount := inodes[i].referenceCount - 1));
        inodes[i] := inodes[i].(referenceCount := inodes[i].referenceCount - 1);
      }
      return 0;
    }

    /** close_all_files: every file table's reference count drops, and every
        table that reaches 0 -- all of them -- leaves the table. The inodes'
        reference counts are not touched. */
    method CloseAllFiles()
      requires Valid()
      modifies ufdt
      ensures Valid()
      ensures forall k :: 0 <= k < MAX_INODES ==> Slots()[k].None?
      ensures Pool() == old(Pool())
    {
      var counter := 0;
      while counter < ufdt.Length
        invariant 0 <= counter <= ufdt.Length
        invariant forall k :: 0 <= k < counter ==> ufdt[k].None?
        invariant forall k :: counter <= k < ufdt.Length ==> ufdt[k] == old(ufdt[k])
      {
        if ufdt[counter].Some? {
          var f := ufdt[counter].value;
          assert old(ufdt[..])[counter] == ufdt[counter];
          assert SlotOk(inodes[..], f);
          ufdt[counter] := Some(f.(referenceCount := f.referenceCount - 1));
          if ufdt[counter].value.referenceCount == 0 {
            ufdt[counter] := None;
          }
        }
        counter := counter + 1;
      }
    }

    /** delete_file: -1 for an unknown name; otherwise the link count of the
        file's inode drops, and once it reaches 0 -- at once, with one link per
        file -- the slot get_file_desc answers is emptied (when there is one),
        the inode is marked free, empty, closed and without permission, and
        the superblock counts one more free inode. Other slots bound to the
        inode are left as they are. */
    method DeleteFile(name: string) returns (r: int)
      requires Valid()
      requires HasLive(Pool(), name) ==> ScanDefined(Pool(), Slots(), name)
      modifies this, inodes, ufdt
      ensures Valid()
      ensures !HasLive(old(Pool()), name) ==>
        r == -1 && Pool() == old(Pool()) && Slots() == old(Slots()) && freeInodes == old(freeInodes)
      ensures HasLive(old(Pool()), name) ==>
        var j := FirstNamed(old(Pool()), name);
        var d := DescOf(old(Pool()), old(Slots()), name);
        && r == 0
        && 0 <= j < MAX_INODES
        && Pool() == old(Pool())[j := Reclaimed(old(Pool())[j])]
        && Slots() == (if d == -1 then old(Slots()) else old(Slots())[d := None])
        && freeInodes == old(freeInodes) + 1
    {
      var e := IsFileExists(name);
      if e == 0 {
        return -1;
      }
      var j := GetExistingInode(name);
      FirstNamedIsLive(inodes[..], name);
      DeleteKeepsPool(inodes[..], j);
      var x := inodes[j].(linkCount := inodes[j].linkCount - 1);
      if x.linkCount == 0 {
        var fd := GetFileDesc(name);
        if fd != -1 {
          ufdt[fd] := None;
        }
        x := x.(fileType := 0, actualSize := 0, referenceCount := 0, permission := 0);
        freeInodes := freeInodes + 1;
      }
      inodes[j] := x;
      return 0;
    }

    /** write_file: -1 for an unknown name, -2 for a file that is not open;
        then, on the slot get_file_desc answers and its inode, -3 for a mode
        without WRITE, -4 for an inode that is not a regular file and -5 when
        the write would end past FILE_SIZE. Otherwise the bytes are copied at
        the write offset with a terminator after them, the write offset moves
        by n, the file's end moves up to it when it passes the end, and n is
        returned. */
    method WriteFile(name: string, data: seq<Byte>, n: int) returns (r: int)
      requires Valid()
      requires forall k :: 0 <= k < |data| ==> data[k] != 0
      requires ReachesDesc(Pool(), name) ==> WriteDefined(Pool(), Slots(), name, data, n)
      modifies inodes, ufdt
      ensures Valid()
      ensures !HasLive(old(Pool()), name) ==> r == -1
      ensures HasLive(old(Pool()), name) && OpenStatus(old(Pool()), name) == 0 ==> r == -2
      ensures !ReachesDesc(old(Pool()), name) ==> Pool() == old(Pool()) && Slots() == old(Slots())
      ensures ReachesDesc(old(Pool()), name) ==>
        var d := DescOf(old(Pool()), old(Slots()), name);
        var f := old(Slots())[d].value;
        var x := old(Pool())[f.inode];
        if !CanWrite(f.mode) then r == -3 && Pool() == old(Pool()) && Slots() == old(Slots())
        else if x.fileType != REGULAR then r == -4 && Pool() == old(Pool()) && Slots() == old(Slots())
        else if !WriteGuardAdmits(f.writeOffset, n) then r == -5 && Pool() == old(Pool()) && Slots() == old(Slots())
        else
          && r == n
          && Slots() == old(Slots())[d := Some(f.(writeOffset := f.writeOffset + n))]
          && Pool() == old(Pool())[f.inode := x.(data := CopyTerminated(x.data, f.writeOffset, data),
                                                 actualSize := Max(x.actualSize, f.writeOffset + n))]
    {
      var e := IsFileExists(name);
      if e == 0 {
        return -1;
      }
      var o := IsOpen(name);
      if o == 0 {
        return -2;
      }
      var fd := GetFileDesc(name);
      var f := ufdt[fd].value;
      assert SlotOk(inodes[..], ufdt[..][fd].value);
      var x := inodes[f.inode];
      if !CanWrite(f.mode) {
        return -3;
      }
      if x.fileType != REGULAR {
        return -4;
      }
      if !WriteGuardAdmits(f.writeOffset, n) {
        return -5;
      }
      var y := x.(data := CopyTerminated(x.data, f.writeOffset, data));
      var writeOffset := f.writeOffset + n;
      if writeOffset > y.actualSize {
        var result := writeOffset - y.actualSize;
        y := y.(actualSize := y.actualSize + result);
      }
      UpdateKeepsPool(inodes[..], f.inode, y);
      inodes[f.inode] := y;
      ufdt[fd] := Some(f.(writeOffset := writeOffset));
      return n;
    }

    /** read_file: -1 for an unknown name, -2 for a file that is not open;
        then, on the slot get_file_desc answers, -3 for a mode without READ and
        END_OF_FILE when the read offset is at the file's end. Otherwise the
        smaller of n and the bytes left are handed to the console, counted in
        r, and the read offset moves past them. */
    method ReadFile(name: string, n: int) returns (r: int, bytes: seq<Byte>)
      requires Valid()
      requires ReachesDesc(Pool(), name) ==> ReadDefined(Pool(), Slots(), name, n)
      modifies ufdt
      ensures Valid()
      ensures Pool() == old(Pool())
      ensures !HasLive(old(Pool()), name) ==> r == -1
      ensures HasLive(old(Pool()), name) && OpenStatus(old(Pool()), name) == 0 ==> r == -2
      ensures !ReachesDesc(old(Pool()), name) ==> Slots() == old(Slots()) && bytes == []
      ensures ReachesDesc(old(Pool()), name) ==>
        var d := DescOf(old(Pool()), old(Slots()), name);
        var f := old(Slots())[d].value;
        var x := old(Pool())[f.inode];
        if !CanRead(f.mode) then r == -3 && Slots() == old(Slots()) && bytes == []
        else if x.actualSize == f.readOffset then r == END_OF_FILE && Slots() == old(Slots()) && bytes == []
        else
          && r == Min(n, x.actualSize - f.readOffset)
          && 0 <= r && f.readOffset + r <= x.actualSize
          && bytes == x.data[f.readOffset..f.readOffset + r]
          && Slots() == old(Slots())[d := Some(f.(readOffset := f.readOffset + r))]
    {
      bytes := [];
      var e := IsFileExists(name);
      if e == 0 {
        return -1, bytes;
      }
      var o := IsOpen(name);
      if o == 0 {
        return -2, bytes;
      }
      var fd := GetFileDesc(name);
      var f := ufdt[fd].value;
      assert SlotOk(inodes[..], ufdt[..][fd].value);
      var x := inodes[f.inode];
      if !CanRead(f.mode) {
        return -3, bytes;
      }
      if x.actualSize == f.readOffset {
        return END_OF_FILE, bytes;
      }
      var remaining := x.actualSize - f.readOffset;
      remaining := remaining - n;
      var count := n;
      if remaining < 0 {
        count := count - (-remaining);
      }
      bytes := x.data[f.readOffset..f.readOffset + count];
      ufdt[fd] := Some(f.(readOffset := f.readOffset + count));
      return count, bytes;
    }

    /** The last step of lseek: the inode of slot fd becomes x, and both
        offsets of the slot move to target. */
    method Reposition(fd: int, x: Inode, target: int)
      requires Valid()
      requires 0 <= fd < MAX_INODES && Slots()[fd].Some?
      requires var i := Slots()[fd].value.inode;
        i < MAX_INODES && InodeOk(x, i) && x.name == Pool()[i].name && x.fileType == Pool()[i].fileType
        && |x.data| == FILE_SIZE
      requires 0 <= target <= FILE_SIZE
      modifies inodes, ufdt
      ensures Valid()
      ensures var f := old(Slots())[fd].value;
        && Slots() == old(Slots())[fd := Some(f.(readOffset := target, writeOffset := target))]
        && Pool() == old(Pool())[f.inode := x]
    {
      var f := ufdt[fd].value;
      UpdateKeepsPool(inodes[..], f.inode, x);
      inodes[f.inode] := x;
      ufdt[fd] := Some(f.(readOffset := target, writeOffset := target));
    }

    /** lseek: -1 for an unknown name, -2 for a file that is not open, -3 for
        a whence of 3 or more. SEEK_SET aims at offset, SEEK_END at the file's
        end plus offset: a negative target is -3; otherwise a target past the
        end fills the gap with spaces and becomes the new end, both offsets of
        the slot get_file_desc answers move to the target, and the target is
        returned. Any other whence returns 0 and changes nothing. */
    method Lseek(name: string, offset: int, whence: int) returns (r: int)
      requires Valid()
      requires ReachesDesc(Pool(), name) && whence < 3 ==> SeekDefined(Pool(), Slots(), name, offset, whence)
      modifies inodes, ufdt
      ensures Valid()
      ensures !HasLive(old(Pool()), name) ==> r == -1
      ensures HasLive(old(Pool()), name) && OpenStatus(old(Pool()), name) == 0 ==> r == -2
      ensures ReachesDesc(old(Pool()), name) && whence >= 3 ==> r == -3
      ensures ReachesDesc(old(Pool()), name) && whence < 3 && whence != SEEK_SET && whence != SEEK_END ==> r == 0
      ensures !(ReachesDesc(old(Pool()), name) && (whence == SEEK_SET || whence == SEEK_END)) ==>
        Pool() == old(Pool()) && Slots() == old(Slots())
      ensures ReachesDesc(old(Pool()), name) && (whence == SEEK_SET || whence == SEEK_END) ==>
        var d := DescOf(old(Pool()), old(Slots()), name);
        var f := old(Slots())[d].value;
        var x := old(Pool())[f.inode];
        var target := if whence == SEEK_SET then offset else x.actualSize + offset;
        if target < 0 then r == -3 && Pool() == old(Pool()) && Slots() == old(Slots())
        else
          && r == target
          && Slots() == old(Slots())[d := Some(f.(readOffset := target, writeOffset := target))]
          && Pool() == old(Pool())[f.inode := Extended(x, target)]
    {
      var e := IsFileExists(name);
      if e == 0 {
        return -1;
      }
      var o := IsOpen(name);
      if o == 0 {
        return -2;
      }
      if whence >= 3 {
        return -3;
      }
      var fd := GetFileDesc(name);
      var f := ufdt[fd].value;
      assert SlotOk(inodes[..], ufdt[..][fd].value);
      var i := f.inode;
      var x := inodes[i];
      ghost var x0 := x;
      if whence == SEEK_SET {
        if offset >= 0 {
          var result := x.actualSize - offset;
          if result < 0 {
            x := x.(data := FillRange(x.data, x.actualSize, x.actualSize + -result, SPACE));
            x := x.(actualSize := x.actualSize + -result);
          }
          assert x == Extended(x0, offset);
          Reposition(fd, x, offset);
          return offset;
        } else {
          return -3;
        }
      } else if whence == SEEK_END {
        if x.actualSize < x.actualSize + offset {
          x := x.(data := FillRange(x.data, x.actualSize, x.actualSize + offset, SPACE));
          x := x.(actualSize := x.actualSize + offset);
          assert x == Extended(x0, x0.actualSize + offset);
          Reposition(fd, x, x.actualSize);
        } else {
          if x.actualSize + offset < 0 {
            return -3;
          }
          Reposition(fd, x, x.actualSize + offset);
        }
        return ufdt[fd].value.readOffset;
      } else {
        return 0;
      }
    }

    /** The body of truncate_file's loop on an inode i carrying the name:
        the inode is cut to size, and when is_open answers non-zero the slot
        get_file_desc answers has its offsets brought down to size. */
    method TruncateInode(i: int, name: string, size: int)
      requires Valid()
      requires 0 <= i < MAX_INODES && Pool()[i].name == name && |Pool()[i].data| == FILE_SIZE
      requires 0 <= size <= FILE_SIZE
      requires HasLive(Pool(), name)
      requires OpenStatus(Pool(), name) == 1 ==> DescUsable(Pool(), Slots(), name)
      modifies inodes, ufdt
      ensures Valid()
      ensures Pool() == old(Pool())[i := Truncated(old(Pool())[i], size)]
      ensures Slots() == if OpenStatus(old(Pool()), name) == 1
                         then var d := DescOf(old(Pool()), old(Slots()), name);
                              old(Slots())[d := Some(Clamp(old(Slots())[d].value, size))]
                         else old(Slots())
    {
      ghost var s0 := inodes[..];
      var y := Truncated(inodes[i], size);
      UpdateKeepsPool(inodes[..], i, y);
      TableValidSameLengths(inodes[..], inodes[..][i := y], ufdt[..]);
      inodes[i] := y;
      OpenStatusSame(s0, inodes[..], name);
      if OpenStatus(s0, name) == 1 {
        DescOfSame(s0, inodes[..], ufdt[..], ufdt[..], name);
      }
      ClampOpenDesc(name, size);
    }

    /** The part of truncate_file's loop body after the inode is cut: when
        is_open answers non-zero, the slot get_file_desc answers has its offsets
        brought down to size. */
    method ClampOpenDesc(name: string, size: int)
      requires Valid()
      requires 0 <= size <= FILE_SIZE
      requires HasLive(Pool(), name)
      requires OpenStatus(Pool(), name) == 1 ==> DescUsable(Pool(), Slots(), name)
      modifies ufdt
      ensures Valid()
      ensures Slots() == if OpenStatus(Pool(), name) == 1
                         then var d := DescOf(Pool(), old(Slots()), name);
                              old(Slots())[d := Some(Clamp(old(Slots())[d].value, size))]
                         else old(Slots())
    {
      var st := IsOpen(name);
      if st != 0 {
        var fd := GetFileDesc(name);
        var f := ufdt[fd].value;
        ufdt[fd] := Some(Clamp(f, size));
      }
    }

    /** One turn of truncate_file's loop, at inode counter. */
    method TruncateStep(counter: int, name: string, size: int, ghost s0: seq<Inode>, ghost t0: Table)
      requires Valid()
      requires 0 <= counter < MAX_INODES
      requires |s0| == MAX_INODES && |t0| == MAX_INODES && PoolValid(s0) && TableValid(s0, t0)
      requires HasLive(s0, name) && TruncateDefined(s0, t0, name, size)
      requires Pool() == TruncatedPrefix(s0, name, size, counter)
      requires Slots() == TruncatedTable(s0, t0, name, size, counter)
      modifies inodes, ufdt
      ensures Valid()
      ensures Pool() == TruncatedPrefix(s0, name, size, counter + 1)
      ensures Slots() == TruncatedTable(s0, t0, name, size, counter + 1)
    {
      TruncatedPrefixStep(s0, name, size, counter);
      TruncatedPrefixKeeps(s0, name, size, counter);
      TruncatedTableStep(s0, t0, name, size, counter);
      if inodes[counter].name == name {
        OpenStatusSame(s0, inodes[..], name);
        if OpenStatus(s0, name) == 1 {
          DescOfSame(s0, inodes[..], t0, ufdt[..], name);
        }
        TruncateInode(counter, name, size);
      }
    }

    /** truncate_file: -1 for an unknown name; otherwise every inode carrying
        the name -- free ones included -- is cut to `size` (shrinking clears
        the bytes past size, growing clears the whole of [0, size)), and when
        the file is open the slot get_file_desc answers has its offsets
        brought down to size. */
    method TruncateFile(name: string, size: int) returns (r: int)
      requires Valid()
      requires HasLive(Pool(), name) ==> TruncateDefined(Pool(), Slots(), name, size)
      modifies inodes, ufdt
      ensures Valid()
      ensures !HasLive(old(Pool()), name) ==> r == -1 && Pool() == old(Pool()) && Slots() == old(Slots())
      ensures HasLive(old(Pool()), name) ==>
        && r == 0
        && (forall i :: 0 <= i < MAX_INODES ==>
              Pool()[i] == if old(Pool())[i].name == name then Truncated(old(Pool())[i], size) else old(Pool())[i])
        && Slots() == if OpenStatus(old(Pool()), name) == 1
                      then var d := DescOf(old(Pool()), old(Slots()), name);
                           old(Slots())[d := Some(Clamp(old(Slots())[d].value, size))]
                      else old(Slots())
    {
      var e := IsFileExists(name);
      if e == 0 {
        return -1;
      }
      ghost var s0, t0 := inodes[..], ufdt[..];
      var counter := 0;
      while counter < inodes.Length
        invariant 0 <= counter <= inodes.Length
        invariant Valid()
        invariant inodes[..] == TruncatedPrefix(s0, name, size, counter)
        invariant ufdt[..] == TruncatedTable(s0, t0, name, size, counter)
      {
        TruncateStep(counter, name, size, s0, t0);
        counter := counter + 1;
      }
      FirstNamedIsLive(s0, name);
      return 0;
    }
  }
}
