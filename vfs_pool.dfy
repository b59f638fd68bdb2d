/** The inode list as a sequence: index i holds the inode numbered i + 1, and
    list order is index order. */
module InodePool {
  import opened VfsTypes

  predicate IsFree(x: Inode) { x.fileType == 0 }

  /** Number of free inodes: what super_block.free_inodes must equal. */
  function CountFree(s: seq<Inode>): (r: nat)
    ensures r <= |s|
  {
    if s == [] then 0 else (if IsFree(s[0]) then 1 else 0) + CountFree(s[1..])
  }

  /** Overwriting one inode moves the count by the change in that inode's freeness. */
  lemma {:induction false} CountFreeUpdate(s: seq<Inode>, i: nat, x: Inode)
    requires i < |s|
    ensures CountFree(s[i := x])
         == CountFree(s) - (if IsFree(s[i]) then 1 else 0) + (if IsFree(x) then 1 else 0)
  {
    if i == 0 {
      assert s[i := x][1..] == s[1..];
    } else {
      assert s[i := x][1..] == s[1..][i - 1 := x];
      CountFreeUpdate(s[1..], i - 1, x);
    }
  }

  /** Two pools with the same file types pointwise have the same free count. */
  lemma {:induction false} CountFreeSameTypes(s: seq<Inode>, t: seq<Inode>)
    requires |s| == |t|
    requires forall k :: 0 <= k < |s| ==> s[k].fileType == t[k].fileType
    ensures CountFree(s) == CountFree(t)
  {
    if s != [] {
      CountFreeSameTypes(s[1..], t[1..]);
    }
  }

  /** A pool of all-free inodes counts every one of them. */
  lemma {:induction false} CountFreeAllFree(s: seq<Inode>)
    requires forall k :: 0 <= k < |s| ==> IsFree(s[k])
    ensures CountFree(s) == |s|
  {
    if s != [] {
      CountFreeAllFree(s[1..]);
    }
  }

  // ---------------------------------------------------------------------
  // get_free_inode: the first inode of the list whose file_type is 0.

  function FirstFreeFrom(s: seq<Inode>, k: nat): (r: int)
    requires k <= |s|
    decreases |s| - k
    ensures r == -1 <==> forall i :: k <= i < |s| ==> !IsFree(s[i])
    ensures r != -1 ==> k <= r < |s| && IsFree(s[r]) && forall i :: k <= i < r ==> !IsFree(s[i])
  {
    if k == |s| then -1 else if IsFree(s[k]) then k else FirstFreeFrom(s, k + 1)
  }

  function FirstFree(s: seq<Inode>): int { FirstFreeFrom(s, 0) }

  /** A positive free count means get_free_inode finds an inode, and a zero
      count means it finds none. */
  lemma {:induction false} FreeCountFindsInode(s: seq<Inode>)
    ensures CountFree(s) > 0 <==> FirstFree(s) != -1
  {
    if s != [] {
      FreeCountFindsInode(s[1..]);
      if !IsFree(s[0]) {
        assert FirstFree(s[1..]) != -1 <==> FirstFree(s) != -1 by {
          var a, b := FirstFree(s[1..]), FirstFree(s);
          if a != -1 { assert IsFree(s[a + 1]); }
          if b != -1 { assert IsFree(s[1..][b - 1]); }
        }
      }
    }
  }

  // ---------------------------------------------------------------------
  // is_file_exists and get_existing_inode.

  /** is_file_exists: some allocated inode carries the name. */
  predicate HasLive(s: seq<Inode>, name: string)
  {
    exists i :: 0 <= i < |s| && s[i].name == name && !IsFree(s[i])
  }

  /** get_existing_inode: the first inode with the name, free or not. */
  function FirstNamedFrom(s: seq<Inode>, name: string, k: nat): (r: int)
    requires k <= |s|
    decreases |s| - k
    ensures r == -1 <==> forall i :: k <= i < |s| ==> s[i].name != name
    ensures r != -1 ==> k <= r < |s| && s[r].name == name && forall i :: k <= i < r ==> s[i].name != name
  {
    if k == |s| then -1 else if s[k].name == name then k else FirstNamedFrom(s, name, k + 1)
  }

  function FirstNamed(s: seq<Inode>, name: string): int { FirstNamedFrom(s, name, 0) }

  /** No inode before an allocated one carries its name. This holds because
      create_file takes the first free inode and refuses a live name, and it
      makes names unique among allocated inodes. */
  ghost predicate NoShadow(s: seq<Inode>)
  {
    forall i, j :: 0 <= i < j < |s| && !IsFree(s[j]) ==> s[i].name != s[j].name
  }

  /** Under NoShadow, the first inode with a live name is the live one: that is
      the inode get_existing_inode, delete_file, is_open and stat act on. */
  lemma FirstNamedIsLive(s: seq<Inode>, name: string)
    requires NoShadow(s) && HasLive(s, name)
    ensures FirstNamed(s, name) != -1
    ensures !IsFree(s[FirstNamed(s, name)])
    ensures forall i :: 0 <= i < |s| && !IsFree(s[i]) && s[i].name == name ==> i == FirstNamed(s, name)
  {
    var j :| 0 <= j < |s| && s[j].name == name && !IsFree(s[j]);
    var r := FirstNamed(s, name);
    assert r != -1 && r <= j;
    assert r == j;
  }

  /** Name lookups read only names and file types: a pool changed in other
      fields answers them the same way. */
  lemma {:induction false} FirstNamedSameNames(s: seq<Inode>, s': seq<Inode>, name: string, k: nat)
    requires |s| == |s'| && k <= |s|
    requires forall i :: 0 <= i < |s| ==> s'[i].name == s[i].name
    decreases |s| - k
    ensures FirstNamedFrom(s', name, k) == FirstNamedFrom(s, name, k)
  {
    if k < |s| && s[k].name != name {
      FirstNamedSameNames(s, s', name, k + 1);
    }
  }

  lemma HasLiveSameNames(s: seq<Inode>, s': seq<Inode>, name: string)
    requires |s| == |s'|
    requires forall i :: 0 <= i < |s| ==> s'[i].name == s[i].name && s'[i].fileType == s[i].fileType
    ensures HasLive(s', name) == HasLive(s, name)
  {
    if HasLive(s, name) {
      var i :| 0 <= i < |s| && s[i].name == name && !IsFree(s[i]);
      assert s'[i].name == name && !IsFree(s'[i]);
    }
    if HasLive(s', name) {
      var i :| 0 <= i < |s'| && s'[i].name == name && !IsFree(s'[i]);
      assert s[i].name == name && !IsFree(s[i]);
    }
  }

  /** is_open: -1 for an unknown name, otherwise 1 when the reference count
      of the first inode with the name is non-zero, else 0. */
  function OpenStatus(s: seq<Inode>, name: string): (r: int)
    ensures r == -1 <==> !HasLive(s, name)
    ensures r == 1 ==> HasLive(s, name) && s[FirstNamed(s, name)].referenceCount != 0
    ensures r == 0 ==> HasLive(s, name) && s[FirstNamed(s, name)].referenceCount == 0
    ensures HasLive(s, name) ==> r == if s[FirstNamed(s, name)].referenceCount != 0 then 1 else 0
  {
    if !HasLive(s, name) then -1
    else
      var i := FirstNamed(s, name);
      if i == -1 then 0 else if s[i].referenceCount != 0 then 1 else 0
  }

  /** is_open reads names, file types and reference counts only. */
  lemma OpenStatusSame(s: seq<Inode>, s': seq<Inode>, name: string)
    requires |s| == |s'|
    requires forall i :: 0 <= i < |s| ==>
      s'[i].name == s[i].name && s'[i].fileType == s[i].fileType && s'[i].referenceCount == s[i].referenceCount
    ensures OpenStatus(s', name) == OpenStatus(s, name)
  {
    HasLiveSameNames(s, s', name);
    FirstNamedSameNames(s, s', name, 0);
  }

  // ---------------------------------------------------------------------
  // Per-inode facts every reachable state keeps.

  predicate InodeOk(x: Inode, i: int)
  {
    && x.inodeNumber == i + 1
    && (x.fileType == 0 || x.fileType == REGULAR)
    && x.linkCount == (if IsFree(x) then 0 else 1)
    && (IsFree(x) ==> x.permission == 0)
    && (!IsFree(x) ==> |x.data| == FILE_SIZE)
    && (|x.data| == 0 || |x.data| == FILE_SIZE)
    && 0 <= x.actualSize <= FILE_SIZE
  }

  ghost predicate PoolValid(s: seq<Inode>)
  {
    && (forall i :: 0 <= i < |s| ==> InodeOk(s[i], i))
    && NoShadow(s)
  }

  /** The inode create_file builds in a free slot. */
  function Created(x: Inode, name: string, permission: int): (r: Inode)
    ensures r.inodeNumber == x.inodeNumber && r.name == name && r.permission == permission
    ensures r.actualSize == 0 && r.fileType == REGULAR && r.linkCount == 1 && r.referenceCount == 1
    ensures r.fileSize == FILE_SIZE && |r.data| == FILE_SIZE
    ensures forall k :: 0 <= k < FILE_SIZE ==> r.data[k] == 0
  {
    x.(name := name, actualSize := 0, fileSize := FILE_SIZE, fileType := REGULAR,
       permission := permission, referenceCount := 1, linkCount := 1,
       data := seq(FILE_SIZE, _ => 0))
  }

  /** The inode delete_file leaves behind: free, empty, closed, no permission;
      name and buffer stay as they were. */
  function Reclaimed(x: Inode): (r: Inode)
    ensures IsFree(r) && r.linkCount == 0 && r.actualSize == 0 && r.referenceCount == 0 && r.permission == 0
    ensures r.name == x.name && r.data == x.data && r.inodeNumber == x.inodeNumber && r.fileSize == x.fileSize
  {
    x.(linkCount := 0, fileType := 0, actualSize := 0, referenceCount := 0, permission := 0)
  }

  /** create_file on the first free inode, with a name no live inode has,
      keeps the pool valid and takes one inode out of the free count. */
  lemma CreateKeepsPool(s: seq<Inode>, name: string, permission: int)
    requires PoolValid(s) && !HasLive(s, name)
    requires FirstFree(s) != -1
    ensures var j := FirstFree(s);
      PoolValid(s[j := Created(s[j], name, permission)])
      && CountFree(s[j := Created(s[j], name, permission)]) == CountFree(s) - 1
  {
    var j := FirstFree(s);
    var s' := s[j := Created(s[j], name, permission)];
    forall a, b | 0 <= a < b < |s'| && !IsFree(s'[b]) ensures s'[a].name != s'[b].name {
      if b == j {
        assert !IsFree(s[a]);
      } else if a == j {
        assert !IsFree(s[b]) && s[b].name != name;
      }
    }
    CountFreeUpdate(s, j, Created(s[j], name, permission));
  }

  /** delete_file on the live inode with the name keeps the pool valid and
      gives one inode back to the free count. */
  lemma DeleteKeepsPool(s: seq<Inode>, j: nat)
    requires PoolValid(s) && j < |s| && !IsFree(s[j])
    ensures PoolValid(s[j := Reclaimed(s[j])])
    ensures CountFree(s[j := Reclaimed(s[j])]) == CountFree(s) + 1
  {
    CountFreeUpdate(s, j, Reclaimed(s[j]));
  }

  /** delete_file after create_file gives the superblock back the inode
      create_file took. */
  lemma CreateThenDeleteRestoresCount(s: seq<Inode>, name: string, permission: int)
    requires FirstFree(s) != -1
    ensures var j := FirstFree(s);
      CountFree(s[j := Reclaimed(Created(s[j], name, permission))]) == CountFree(s)
  {
    var j := FirstFree(s);
    CountFreeUpdate(s, j, Reclaimed(Created(s[j], name, permission)));
  }

  /** Overwriting an inode with one that keeps its name and file type, and
      the per-inode facts, keeps the pool valid and the free count. */
  lemma UpdateKeepsPool(s: seq<Inode>, i: nat, x: Inode)
    requires PoolValid(s) && i < |s| && InodeOk(x, i)
    requires x.name == s[i].name && x.fileType == s[i].fileType
    ensures PoolValid(s[i := x])
    ensures CountFree(s[i := x]) == CountFree(s)
  {
    CountFreeSameTypes(s, s[i := x]);
  }

  // ---------------------------------------------------------------------
  // display_file_list: the names of the allocated inodes, in list order.

  function LiveNames(s: seq<Inode>): (r: seq<string>)
    ensures |r| == |s| - CountFree(s)
    ensures forall n :: n in r <==> HasLive(s, n)
  {
    if s == [] then []
    else
      var rest := LiveNames(s[1..]);
      assert forall n :: HasLive(s, n) <==> (!IsFree(s[0]) && s[0].name == n) || HasLive(s[1..], n) by {
        forall n ensures HasLive(s, n) <==> (!IsFree(s[0]) && s[0].name == n) || HasLive(s[1..], n) {
          if HasLive(s, n) && !(!IsFree(s[0]) && s[0].name == n) {
            var i :| 0 <= i < |s| && s[i].name == n && !IsFree(s[i]);
            assert s[1..][i - 1] == s[i];
          }
        }
      }
      if IsFree(s[0]) then rest else [s[0].name] + rest
  }
}
