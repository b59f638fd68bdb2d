/** Short sessions against a fresh file system, each proving what a user of
    the shell would observe. */
module Scenarios {
  import opened VfsTypes
  import opened FileData
  import opened InodePool
  import opened DescriptorTable
  import opened VirtualFileSystem

  /** The bytes of "hello". */
  function Hello(): (r: seq<Byte>)
    ensures |r| == 5 && forall k :: 0 <= k < 5 ==> r[k] != 0
  {
    [104, 101, 108, 108, 111]
  }

  /** When slot 0 is bound to an inode carrying a live name, get_file_desc
      answers slot 0 for that name. */
  lemma FirstSlotAnswers(s: seq<Inode>, t: Table, name: string)
    requires HasLive(s, name) && |t| > 0 && t[0].Some? && t[0].value.inode < |s|
    requires s[t[0].value.inode].name == name
    ensures ScanDefined(s, t, name) && DescOf(s, t, name) == 0
  {
    assert ScanHalts(s, t, name, 0);
  }

  /** A fresh file system with one file created in it: the file sits in
      inode 0 and is bound to slot 0, the slot get_file_desc answers. */
  method NewWithFile(name: string, permission: int) returns (fs: FileSystem, fd: int)
    requires |name| < NAME_SIZE && 1 <= permission <= 3
    ensures fresh(fs) && fresh(fs.inodes) && fresh(fs.ufdt) && fs.Valid() && fd == 0
    ensures fs.freeInodes == MAX_INODES - 1
    ensures fs.Pool()[0].name == name && fs.Pool()[0].permission == permission
    ensures fs.Pool()[0].actualSize == 0 && !IsFree(fs.Pool()[0]) && fs.Pool()[0].referenceCount == 1
    ensures forall i :: 1 <= i < MAX_INODES ==> IsFree(fs.Pool()[i])
    ensures fs.Slots()[0] == Some(FileTable(0, 0, 1, permission, 0))
    ensures forall k :: 1 <= k < MAX_INODES ==> fs.Slots()[k].None?
    ensures ReachesDesc(fs.Pool(), name) && DescUsable(fs.Pool(), fs.Slots(), name)
    ensures DescOf(fs.Pool(), fs.Slots(), name) == 0
  {
    fs := new FileSystem();
    assert !HasLive(fs.Pool(), name);
    fd := fs.CreateFile(name, permission);
    assert fs.Slots()[0].Some? && ScanHalts(fs.Pool(), fs.Slots(), name, 0);
  }

  /** create "a" with Read+Write, open it Read+Write, write "hello", seek to
      the start, read five bytes and read again: the five bytes come back and
      the second read is at the end of the file. */
  method WriteSeekRead() returns (fd: int, second: int, written: int, sought: int,
                                  count: int, bytes: seq<Byte>, last: int)
    ensures fd == 0 && second == 1 && written == 5 && sought == 0
    ensures count == 5 && bytes == Hello() && last == END_OF_FILE
  {
    var fs;
    fs, fd := NewWithFile("a", READ + WRITE);
    assert fs.Slots()[1].None?;
    second := fs.OpenFile("a", READ + WRITE);
    FirstSlotAnswers(fs.Pool(), fs.Slots(), "a");
    written := fs.WriteFile("a", Hello(), 5);
    FirstSlotAnswers(fs.Pool(), fs.Slots(), "a");
    sought := fs.Lseek("a", 0, SEEK_SET);
    FirstSlotAnswers(fs.Pool(), fs.Slots(), "a");
    count, bytes := fs.ReadFile("a", 5);
    FirstSlotAnswers(fs.Pool(), fs.Slots(), "a");
    var rest;
    last, rest := fs.ReadFile("a", 5);
  }

  /** create "a" twice: the second is refused as existing. After writing to it
      and deleting it, "a" can be created again, on the same inode, with a
      zero-filled buffer and size 0. */
  method RecreateAfterDelete() returns (first: int, again: int, deleted: int, recreated: int,
                                        info: Option<Inode>)
    ensures first == 0 && again == -3 && deleted == 0 && recreated == 0
    ensures info.Some? && info.value.inodeNumber == 1 && info.value.actualSize == 0
    ensures info.value.data == Zeros(FILE_SIZE)
  {
    var fs;
    fs, first := NewWithFile("a", READ + WRITE);
    again := fs.CreateFile("a", READ + WRITE);
    var written := fs.WriteFile("a", Hello(), 5);
    FirstSlotAnswers(fs.Pool(), fs.Slots(), "a");
    deleted := fs.DeleteFile("a");
    assert IsFree(fs.Pool()[0]) && fs.Slots()[0].None?;
    assert !HasLive(fs.Pool(), "a");
    recreated := fs.CreateFile("a", READ + WRITE);
    info := fs.Stat("a");
  }

  /** A Read-only file refuses mode Write and opens in mode Read. */
  method OpenReadOnly() returns (asWrite: int, asRead: int)
    ensures asWrite == -3 && asRead == 1
  {
    var fs, fd := NewWithFile("r", READ);
    asWrite := fs.OpenFile("r", WRITE);
    assert fs.Slots()[1].None?;
    asRead := fs.OpenFile("r", READ);
  }

  /** A Write-only file refuses every mode, Write included. */
  method OpenWriteOnly() returns (asWrite: int, asRead: int)
    ensures asWrite == -3 && asRead == -3
  {
    var fs, fd := NewWithFile("w", WRITE);
    asWrite := fs.OpenFile("w", WRITE);
    asRead := fs.OpenFile("w", READ);
  }

  /** Closing a descriptor twice: the second close finds the slot empty.
      close_all_files then leaves every slot empty. */
  method CloseTwice() returns (fd: int, closed: int, again: int)
    ensures fd == 0 && closed == 0 && again == -1
  {
    var fs;
    fs, fd := NewWithFile("a", READ + WRITE);
    closed := fs.CloseFile(fd);
    again := fs.CloseFile(fd);
    fs.CloseAllFiles();
  }

  /** A write that would end past FILE_SIZE is refused and leaves the file
      empty. */
  method WriteTooLong() returns (written: int, info: Option<Inode>)
    ensures written == -5
    ensures info.Some? && info.value.actualSize == 0
  {
    var fs, fd := NewWithFile("a", READ + WRITE);
    var big: seq<Byte> := seq(FILE_SIZE + 1, _ => 1);
    written := fs.WriteFile("a", big, FILE_SIZE + 1);
    info := fs.Stat("a");
  }

  /** After "ab", a seek three bytes past the end grows the file to 5 and pads
      it with spaces; reading from the old end returns the padding. */
  method SeekEndPads() returns (sought: int, back: int, count: int, bytes: seq<Byte>)
    ensures sought == 5 && back == 2
    ensures count == 3 && bytes == [SPACE, SPACE, SPACE]
  {
    var fs, fd := NewWithFile("p", READ + WRITE);
    var written := fs.WriteFile("p", [97, 98], 2);
    FirstSlotAnswers(fs.Pool(), fs.Slots(), "p");
    sought := fs.Lseek("p", 3, SEEK_END);
    FirstSlotAnswers(fs.Pool(), fs.Slots(), "p");
    back := fs.Lseek("p", 2, SEEK_SET);
    FirstSlotAnswers(fs.Pool(), fs.Slots(), "p");
    count, bytes := fs.ReadFile("p", 3);
  }

  /** The write_file overrun, reached from the shell: seek to 1000 and write
      24 bytes. The guard admits the write, the file grows to FILE_SIZE, and
      the terminator strcpy stores after the 24 bytes would go to index
      1024, the length of the buffer. The model keeps the buffer at
      FILE_SIZE bytes and leaves that store out. */
  method StrayTerminator() returns (sought: int, written: int, size: int, bufferLength: int)
    ensures sought == 1000 && written == 24 && size == FILE_SIZE
    ensures bufferLength == FILE_SIZE && WriteGuardAdmits(sought, 24) && StrcpyStores(sought, 24, bufferLength)
  {
    var fs, fd := NewWithFile("a", READ + WRITE);
    sought := fs.Lseek("a", 1000, SEEK_SET);
    FirstSlotAnswers(fs.Pool(), fs.Slots(), "a");
    var data: seq<Byte> := seq(24, _ => 120);
    WriteStoresPastBuffer(fs.Pool(), fs.Slots(), "a", data);
    written := fs.WriteFile("a", data, 24);
    size := fs.inodes[0].actualSize;
    bufferLength := |fs.inodes[0].data|;
  }
}
