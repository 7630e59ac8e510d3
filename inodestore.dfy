/**
 * The inode store of block 1 read as a sequence of records, of which the
 * first `inodes_count` are live; lookups scan it linearly by inode number.
 */
module InodeStore {
  import opened Layout

  /** The first slot at index i or above, below n, whose record has inode number ino. */
  function FindSlotFrom(s: seq<InodeInfo>, n: nat, ino: u64, i: nat): (r: Option<nat>)
    requires i <= n <= |s|
    decreases n - i
    ensures r.Some? ==> i <= r.value < n && s[r.value].inodeNo == ino
    ensures r.Some? ==> forall k | i <= k < r.value :: s[k].inodeNo != ino
    ensures r.None? <==> forall k | i <= k < n :: s[k].inodeNo != ino
  {
    if i == n then None
    else if s[i].inodeNo == ino then Some(i)
    else FindSlotFrom(s, n, ino, i + 1)
  }

  /** The first live slot holding inode number ino: first match wins. */
  function FindSlot(s: seq<InodeInfo>, n: nat, ino: u64): Option<nat>
    requires n <= |s|
  {
    FindSlotFrom(s, n, ino, 0)
  }

  /** What assoofs_get_inode_info returns: a copy of the first live record numbered ino. */
  function FindInode(s: seq<InodeInfo>, n: nat, ino: u64): Option<InodeInfo>
    requires n <= |s|
  {
    match FindSlot(s, n, ino)
    case Some(k) => Some(s[k])
    case None => None
  }

  /** The records of the live slots with inode number ino; FindSlot returns the first. */
  lemma FindSlotIsFirst(s: seq<InodeInfo>, n: nat, ino: u64, k: nat)
    requires k < n <= |s| && s[k].inodeNo == ino
    ensures FindSlot(s, n, ino).Some? && FindSlot(s, n, ino).value <= k
  {
  }

  /**
   * Writing a record at slot n and counting it: lookups of numbers already
   * live are unchanged, and the new record's number is found at n otherwise.
   */
  lemma {:induction false} FindAfterAppend(s: seq<InodeInfo>, n: nat, rec: InodeInfo, ino: u64)
    requires n < |s|
    ensures FindSlot(s[n := rec], n + 1, ino) ==
      if FindSlot(s, n, ino).Some? then FindSlot(s, n, ino)
      else if rec.inodeNo == ino then Some(n)
      else None
  {
    FindFromAfterAppend(s, n, rec, ino, 0);
  }

  lemma {:induction false} FindFromAfterAppend(s: seq<InodeInfo>, n: nat, rec: InodeInfo, ino: u64, i: nat)
    requires i <= n < |s|
    ensures FindSlotFrom(s[n := rec], n + 1, ino, i) ==
      if FindSlotFrom(s, n, ino, i).Some? then FindSlotFrom(s, n, ino, i)
      else if rec.inodeNo == ino then Some(n)
      else None
    decreases n - i
  {
    var s' := s[n := rec];
    if i < n {
      assert s'[i] == s[i];
      if s[i].inodeNo != ino {
        FindFromAfterAppend(s, n, rec, ino, i + 1);
      }
    } else {
      assert s'[n] == rec;
      if rec.inodeNo != ino {
        assert FindSlotFrom(s', n + 1, ino, n + 1) == None;
      }
    }
  }

  /**
   * Overwriting the slot that FindSlot picks for rec's number with rec
   * itself (what assoofs_save_inode_info does) leaves every lookup's slot
   * where it was.
   */
  lemma {:induction false} FindAfterOverwrite(s: seq<InodeInfo>, n: nat, rec: InodeInfo, ino: u64)
    requires n <= |s| && FindSlot(s, n, rec.inodeNo).Some?
    ensures var k := FindSlot(s, n, rec.inodeNo).value;
      FindSlot(s[k := rec], n, ino) == FindSlot(s, n, ino)
  {
    var k := FindSlot(s, n, rec.inodeNo).value;
    FindFromAfterOverwrite(s, n, k, rec, ino, 0);
  }

  lemma {:induction false} FindFromAfterOverwrite(s: seq<InodeInfo>, n: nat, k: nat, rec: InodeInfo, ino: u64, i: nat)
    requires i <= n <= |s| && k < n && s[k].inodeNo == rec.inodeNo
    ensures FindSlotFrom(s[k := rec], n, ino, i) == FindSlotFrom(s, n, ino, i)
    decreases n - i
  {
    var s' := s[k := rec];
    if i < n {
      assert s'[i].inodeNo == s[i].inodeNo;
      if s[i].inodeNo != ino {
        FindFromAfterOverwrite(s, n, k, rec, ino, i + 1);
      }
    }
  }

  // ---------------------------------------------------------------------
  // assoofs_search_inode_info as written.

  /**
   * `while (start->inode_no != search->inode_no && count < inodes_count)`
   * followed by a test of the slot the loop stopped at: when no live slot
   * matches, the loop stops at slot n, one past the live records, and that
   * slot is still compared.
   */
  function SearchAsWrittenFrom(s: seq<InodeInfo>, n: nat, ino: u64, i: nat): (r: Option<nat>)
    requires i <= n < |s|
    decreases n - i
    ensures r.Some? ==> i <= r.value <= n && s[r.value].inodeNo == ino
  {
    if s[i].inodeNo != ino && i < n then SearchAsWrittenFrom(s, n, ino, i + 1)
    else if s[i].inodeNo == ino then Some(i)
    else None
  }

  function SearchAsWritten(s: seq<InodeInfo>, n: nat, ino: u64): Option<nat>
    requires n < |s|
  {
    SearchAsWrittenFrom(s, n, ino, 0)
  }

  lemma {:induction false} SearchAsWrittenFromAgrees(s: seq<InodeInfo>, n: nat, ino: u64, i: nat)
    requires i <= n < |s|
    ensures FindSlotFrom(s, n, ino, i).Some? ==> SearchAsWrittenFrom(s, n, ino, i) == FindSlotFrom(s, n, ino, i)
    ensures FindSlotFrom(s, n, ino, i).None? ==>
      SearchAsWrittenFrom(s, n, ino, i) == if s[n].inodeNo == ino then Some(n) else None
    decreases n - i
  {
    if i < n && s[i].inodeNo != ino {
      SearchAsWrittenFromAgrees(s, n, ino, i + 1);
    }
  }

  /**
   * The source's search agrees with the bounded one whenever a live slot
   * matches, and otherwise reports slot n, which is not live, if that one
   * happens to hold the number searched for.
   */
  lemma SearchAsWrittenReadsPastCount(s: seq<InodeInfo>, n: nat, ino: u64)
    requires n < |s|
    ensures FindSlot(s, n, ino).Some? ==> SearchAsWritten(s, n, ino) == FindSlot(s, n, ino)
    ensures FindSlot(s, n, ino).None? && s[n].inodeNo == ino ==> SearchAsWritten(s, n, ino) == Some(n)
  {
    SearchAsWrittenFromAgrees(s, n, ino, 0);
  }

  /**
   * A store numbered in creation order (slot k holds inode k + 1, the root
   * at slot 0) whose first dead slot is still zero-filled, as a freshly
   * formatted block 1 has it: searching for inode 0 finds that dead slot,
   * where the bounded search finds nothing.
   */
  lemma SearchAsWrittenFindsDeadSlot(s: seq<InodeInfo>, n: nat)
    requires 1 <= n < |s|
    requires forall k | 0 <= k < n :: s[k].inodeNo == k + 1
    requires s[n].inodeNo == 0
    ensures SearchAsWritten(s, n, 0) == Some(n) && FindSlot(s, n, 0) == None
  {
    assert FindSlot(s, n, 0) == None by {
      forall k | 0 <= k < n ensures s[k].inodeNo != 0 {
        assert s[k].inodeNo == k + 1;
      }
    }
    SearchAsWrittenReadsPastCount(s, n, 0);
  }
}
