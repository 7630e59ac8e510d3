/**
 * A directory's data block read as a table of entry records, of which the
 * first `dir_children_count` are the directory's children.
 */
module Directory {
  import opened Layout

  /** The first entry at index i or above, below n, named name. */
  function FindEntryFrom(entries: seq<DirRecordEntry>, n: nat, name: Name, i: nat): (r: Option<nat>)
    requires i <= n <= |entries|
    decreases n - i
    ensures r.Some? ==> i <= r.value < n && entries[r.value].filename == name
    ensures r.Some? ==> forall k | i <= k < r.value :: entries[k].filename != name
    ensures r.None? <==> forall k | i <= k < n :: entries[k].filename != name
  {
    if i == n then None
    else if entries[i].filename == name then Some(i)
    else FindEntryFrom(entries, n, name, i + 1)
  }

  /** The first of the n children named name: the scan of assoofs_lookup. */
  function FindEntry(entries: seq<DirRecordEntry>, n: nat, name: Name): Option<nat>
    requires n <= |entries|
  {
    FindEntryFrom(entries, n, name, 0)
  }

  /** The inode number the lookup resolves name to, if a child has that name. */
  function LookupEntry(entries: seq<DirRecordEntry>, n: nat, name: Name): Option<u64>
    requires n <= |entries|
  {
    match FindEntry(entries, n, name)
    case Some(k) => Some(entries[k].inodeNo)
    case None => None
  }

  /**
   * What create and mkdir write at slot k: the name (strcpy) and the child's
   * inode number; the slot's state flag is left as it was.
   */
  function WriteEntry(entries: seq<DirRecordEntry>, k: nat, name: Name, ino: u64): (r: seq<DirRecordEntry>)
    requires k < |entries|
    ensures |r| == |entries|
    ensures r[k].filename == name && r[k].inodeNo == ino && r[k].stateFlag == entries[k].stateFlag
    ensures forall j | 0 <= j < |entries| && j != k :: r[j] == entries[j]
  {
    entries[k := entries[k].(filename := name, inodeNo := ino)]
  }

  /**
   * Appending a child at slot n and counting it: a name that no child had
   * now resolves to the new inode number, and every other name resolves as
   * before.
   */
  lemma {:induction false} LookupAfterAppend(entries: seq<DirRecordEntry>, n: nat, name: Name, ino: u64, other: Name)
    requires n < |entries|
    requires FindEntry(entries, n, name).None?
    ensures LookupEntry(WriteEntry(entries, n, name, ino), n + 1, name) == Some(ino)
    ensures other != name ==>
      LookupEntry(WriteEntry(entries, n, name, ino), n + 1, other) == LookupEntry(entries, n, other)
  {
    var e' := WriteEntry(entries, n, name, ino);
    FindFromAfterAppend(entries, n, name, ino, name, 0);
    FindFromAfterAppend(entries, n, name, ino, other, 0);
    assert FindEntry(e', n + 1, name) == Some(n);
  }

  lemma {:induction false} FindFromAfterAppend(entries: seq<DirRecordEntry>, n: nat, name: Name, ino: u64, other: Name, i: nat)
    requires i <= n < |entries|
    ensures FindEntryFrom(WriteEntry(entries, n, name, ino), n + 1, other, i) ==
      if FindEntryFrom(entries, n, other, i).Some? then FindEntryFrom(entries, n, other, i)
      else if other == name then Some(n)
      else None
    decreases n - i
  {
    var e' := WriteEntry(entries, n, name, ino);
    if i < n {
      assert e'[i] == entries[i];
      if entries[i].filename != other {
        FindFromAfterAppend(entries, n, name, ino, other, i + 1);
      }
    } else if other != name {
      assert FindEntryFrom(e', n + 1, other, n + 1) == None;
    }
  }

  /** Entries at or beyond the child count never take part in a lookup. */
  lemma {:induction false} LookupIgnoresSlotsPastCount(entries: seq<DirRecordEntry>, entries': seq<DirRecordEntry>, n: nat, name: Name)
    requires n <= |entries| && n <= |entries'|
    requires entries[..n] == entries'[..n]
    ensures LookupEntry(entries, n, name) == LookupEntry(entries', n, name)
  {
    IgnoresFrom(entries, entries', n, name, 0);
  }

  lemma {:induction false} IgnoresFrom(entries: seq<DirRecordEntry>, entries': seq<DirRecordEntry>, n: nat, name: Name, i: nat)
    requires i <= n <= |entries| && n <= |entries'|
    requires entries[..n] == entries'[..n]
    ensures FindEntryFrom(entries, n, name, i) == FindEntryFrom(entries', n, name, i)
    ensures FindEntryFrom(entries, n, name, i).Some? ==>
      entries[FindEntryFrom(entries, n, name, i).value] == entries'[FindEntryFrom(entries, n, name, i).value]
    decreases n - i
  {
    if i < n {
      assert entries[i] == entries[..n][i] == entries'[..n][i] == entries'[i];
      IgnoresFrom(entries, entries', n, name, i + 1);
    }
  }
}
