/** The name layer of the in-memory file system served by the tmpfs user
    process: hashed file names, directories whose entries live in a hash
    table of 1024 buckets, creation, lookup, removal and path resolution of
    names, and the `dirent` records a directory scan writes into a buffer.

    C strings are modelled by their bytes before the terminating NUL
    (`CString`); a `Str` is the kernel-side copy with its stored length,
    NUL terminator and hash. */
module Tmpfs {
  import opened Common

  type byte = b: int | 0 <= b < 256

  /** The bytes of a NUL-terminated C string, without the terminator. */
  type CString = s: seq<byte> | 0 !in s witness []

  const SLASH: byte := 47
  /** The multiplier of the BKDR string hash. */
  const SEED: nat := 131
  /** Buckets in every directory's dentry hash table (`init_htable(..., 1024)`). */
  const HTABLE_SIZE: nat := 1024

  const ENOENT: int := 2
  const EAGAIN: int := 11
  const EEXIST: int := 17
  const EINVAL: int := 22
  const ENOTEMPTY: int := 39

  /** The `type` codes of an inode. */
  const FS_REG: byte := 1
  const FS_DIR: byte := 2

  // ---------------------------------------------------------------------
  // Hashing and strings.

  /** The BKDR hash: the left fold h := h * 131 + byte over s, from 0,
      modulo 2^64. */
  function Bkdr(s: seq<byte>): (h: nat)
    ensures h < U64_LIMIT
  {
    if s == [] then 0 else (Bkdr(s[..|s| - 1]) * SEED + s[|s| - 1]) % U64_LIMIT
  }

  /** `strlen`: the index of the first NUL. */
  function StrLen(s: seq<byte>): (n: nat)
    requires 0 in s
    ensures n < |s| && s[n] == 0 && 0 !in s[..n]
  {
    if s[0] == 0 then 0 else 1 + StrLen(s[1..])
  }

  /** The C string starting at s: the bytes up to the first NUL, or all of s. */
  function CStr(s: seq<byte>): (c: CString)
    ensures c <= s
    ensures 0 in s ==> c == s[..StrLen(s)]
    ensures 0 !in s ==> c == s
  {
    if s == [] then [] else if s[0] == 0 then [] else [s[0]] + CStr(s[1..])
  }

  /** hash_chars(str, len): with len >= 0 the hash of the first len bytes;
      with len < 0 the hash of the bytes up to the first NUL, which is
      hash_chars(str, strlen(str)). */
  method HashChars(str: seq<byte>, len: int) returns (h: nat)
    requires len < 0 ==> 0 in str
    requires len >= 0 ==> len <= |str|
    ensures len >= 0 ==> h == Bkdr(str[..len])
    ensures len < 0 ==> h == Bkdr(str[..StrLen(str)])
  {
    h := 0;
    if len < 0 {
      var i := 0;
      while str[i] != 0
        invariant i <= StrLen(str) && h == Bkdr(str[..i])
        decreases StrLen(str) - i
      {
        assert str[..i + 1][..i] == str[..i];
        h := (h * SEED + str[i]) % U64_LIMIT;
        i := i + 1;
      }
    } else {
      for i := 0 to len
        invariant h == Bkdr(str[..i])
      {
        assert str[..i + 1][..i] == str[..i];
        h := (h * SEED + str[i]) % U64_LIMIT;
      }
    }
  }

  /** A file name as the file system keeps it: `str` holds `len` bytes and a
      NUL, and `hash` is the hash of those bytes. */
  datatype Str = Str(str: seq<byte>, len: nat, hash: nat)

  /** The bytes of a stored name before its terminator. */
  function Content(s: Str): seq<byte>
  {
    if s.len <= |s.str| then s.str[..s.len] else s.str
  }

  predicate StrWf(s: Str)
  {
    |s.str| == s.len + 1 && s.str[s.len] == 0 && 0 !in s.str[..s.len] && s.hash == Bkdr(s.str[..s.len])
  }

  /** init_string: copies exactly len bytes of name, NUL-terminates them and
      stores their hash. */
  method InitString(name: CString, len: nat) returns (s: Str)
    requires len <= |name|
    ensures StrWf(s) && s.len == len && Content(s) == name[..len]
    ensures CStr(s.str) == name[..len]
    ensures s == Str(name[..len] + [0], len, Bkdr(name[..len]))
  {
    var str: seq<byte> := [];
    for i := 0 to len
      invariant str == name[..i]
    {
      str := str + [name[i]];
    }
    str := str + [0];
    assert str[..len] == name[..len];
    var h := HashChars(str, len);
    s := Str(str, len, h);
    assert name[..len] <= name;
    CStrAfter(name[..len], str);
  }

  /** The C string of some bytes followed by a NUL is those bytes. */
  lemma {:induction false} CStrAfter(c: CString, s: seq<byte>)
    requires s == c + [0]
    ensures CStr(s) == c
  {
    if c != [] {
      assert s[1..] == c[1..] + [0];
      CStrAfter(c[1..], s[1..]);
    }
  }

  // ---------------------------------------------------------------------
  // Inodes, dentries and the directory hash table.

  datatype Kind = Reg | Dir

  datatype Dentry = Dentry(name: Str, inode: nat)

  /** An inode: its type, its size, and (for a directory) its dentry hash
      table, one list per bucket, each list in iteration order. */
  datatype Inode = Inode(kind: Kind, size: nat, table: seq<seq<Dentry>>)

  /** The file system: the inodes by number, the root directory and the next
      unused inode number (the allocator). */
  datatype Fs = Fs(inodes: map<nat, Inode>, root: nat, next: nat)

  function EmptyTable(): (t: seq<seq<Dentry>>)
    ensures |t| == HTABLE_SIZE && forall b | 0 <= b < HTABLE_SIZE :: t[b] == []
  {
    seq(HTABLE_SIZE, _ => [])
  }

  /** The bucket a hash selects: the table is indexed with the hash cast to
      32 bits, modulo the table size. */
  function Bucket(h: nat): (b: nat)
    ensures b < HTABLE_SIZE
  {
    (h % 0x1_0000_0000) % HTABLE_SIZE
  }

  /** new_dir / new_reg: a fresh inode of size 0 and the requested type. A
      directory gets an empty table of 1024 buckets (`init_htable`). new_reg
      leaves `dentries` uninitialised; the model gives a regular file an
      empty table as well. */
  function NewInode(mkdir: bool): (n: Inode)
    ensures n.size == 0 && (n.kind == Dir <==> mkdir)
    ensures |n.table| == HTABLE_SIZE && forall b | 0 <= b < HTABLE_SIZE :: n.table[b] == []
  {
    Inode(if mkdir then Dir else Reg, 0, EmptyTable())
  }

  /** A dentry in bucket b: it names an existing inode, and its name is
      well formed, not empty (tfs_mknod refuses len 0) and hashes to b. */
  ghost predicate DentryWf(keys: set<nat>, d: Dentry, b: nat)
  {
    d.inode in keys && StrWf(d.name) && 0 < d.name.len && Bucket(d.name.hash) == b
  }

  /** A table of 1024 buckets holding well-formed dentries only. */
  ghost predicate TableWf(keys: set<nat>, t: seq<seq<Dentry>>)
  {
    |t| == HTABLE_SIZE && forall b, d | 0 <= b < HTABLE_SIZE && d in t[b] :: DentryWf(keys, d, b)
  }

  /** The root is a directory, every inode number is below `next`, and every
      table is well formed. */
  ghost predicate Wf(fs: Fs)
  {
    && fs.root in fs.inodes && fs.inodes[fs.root].kind == Dir
    && (forall i | i in fs.inodes :: i < fs.next && TableWf(fs.inodes.Keys, fs.inodes[i].table))
  }

  lemma DentryIn(keys: set<nat>, t: seq<seq<Dentry>>, b: nat, d: Dentry)
    requires TableWf(keys, t) && b < HTABLE_SIZE && d in t[b]
    ensures DentryWf(keys, d, b)
  {
  }

  lemma TableGrow(keys: set<nat>, keys': set<nat>, t: seq<seq<Dentry>>)
    requires TableWf(keys, t) && keys <= keys'
    ensures TableWf(keys', t)
  {
    forall b, d | 0 <= b < HTABLE_SIZE && d in t[b]
      ensures DentryWf(keys', d, b)
    {
      DentryIn(keys, t, b, d);
    }
  }

  lemma TablePush(keys: set<nat>, t: seq<seq<Dentry>>, b: nat, d: Dentry)
    requires TableWf(keys, t) && b < HTABLE_SIZE && DentryWf(keys, d, b)
    ensures TableWf(keys, t[b := [d] + t[b]])
  {
    var t' := t[b := [d] + t[b]];
    forall c, e | 0 <= c < HTABLE_SIZE && e in t'[c]
      ensures DentryWf(keys, e, c)
    {
      if e != d || c != b {
        assert e in t[c];
        DentryIn(keys, t, c, e);
      }
    }
  }

  lemma TableDrop(keys: set<nat>, t: seq<seq<Dentry>>, b: nat, j: nat)
    requires TableWf(keys, t) && b < HTABLE_SIZE && j < |t[b]|
    ensures TableWf(keys, t[b := t[b][..j] + t[b][j + 1..]])
  {
    var t' := t[b := t[b][..j] + t[b][j + 1..]];
    forall c, e | 0 <= c < HTABLE_SIZE && e in t'[c]
      ensures DentryWf(keys, e, c)
    {
      assert e in t[c] by {
        if c == b {
          assert e in t[b][..j] || e in t[b][j + 1..];
        }
      }
      DentryIn(keys, t, c, e);
    }
  }

  /** A dentry tfs_lookup accepts for (name, len): same stored length and
      `strcmp` finds the strings equal. */
  predicate Matches(d: Dentry, name: CString, len: nat)
  {
    d.name.len == len && CStr(d.name.str) == name
  }

  /** The index of the first matching dentry in a bucket list. */
  function Find(ds: seq<Dentry>, name: CString, len: nat): (j: Option<nat>)
    ensures j.Some? ==> j.value < |ds|
  {
    if ds == [] then None
    else if Matches(ds[0], name, len) then Some(0)
    else match Find(ds[1..], name, len)
      case None => None
      case Some(j) => Some(j + 1)
  }

  /** Find returns the first matching index, and None only when nothing matches. */
  lemma {:induction false} FindSpec(ds: seq<Dentry>, name: CString, len: nat)
    ensures var j := Find(ds, name, len);
            && (j.Some? ==> Matches(ds[j.value], name, len))
            && (j.Some? ==> forall k | 0 <= k < j.value :: !Matches(ds[k], name, len))
            && (j.None? ==> forall k | 0 <= k < |ds| :: !Matches(ds[k], name, len))
  {
    if ds != [] && !Matches(ds[0], name, len) {
      FindSpec(ds[1..], name, len);
    }
  }

  /** The bucket tfs_lookup and tfs_remove search for (name, len). */
  function BucketOf(name: CString, len: nat): nat
    requires len <= |name|
  {
    Bucket(Bkdr(name[..len]))
  }

  /** tfs_lookup(dir, name, len): the first matching dentry in the bucket
      of hash_chars(name, len). */
  ghost function LookupSpec(fs: Fs, dir: nat, name: CString, len: nat): Option<Dentry>
    requires len <= |name|
  {
    if dir !in fs.inodes || |fs.inodes[dir].table| != HTABLE_SIZE then None
    else
      var ds := fs.inodes[dir].table[BucketOf(name, len)];
      match Find(ds, name, len)
      case None => None
      case Some(j) => Some(ds[j])
  }

  /** The C string of a well-formed stored name is its content. */
  lemma StoredName(s: Str)
    requires StrWf(s)
    ensures CStr(s.str) == s.str[..s.len]
  {
    assert s.str == s.str[..s.len] + [0];
    CStrAfter(s.str[..s.len], s.str);
  }

  /** Lookup finds only a dentry whose stored name is exactly the first len
      bytes of name, and only when those are the whole of name. */
  lemma LookupSound(fs: Fs, dir: nat, name: CString, len: nat)
    requires Wf(fs) && dir in fs.inodes && len <= |name|
    ensures var d := LookupSpec(fs, dir, name, len);
            d.Some? ==> 0 < d.value.name.len == len == |name| && Content(d.value.name) == name && d.value.inode in fs.inodes
  {
    var b := BucketOf(name, len);
    var ds := fs.inodes[dir].table[b];
    var j := Find(ds, name, len);
    FindSpec(ds, name, len);
    if j.Some? {
      assert ds[j.value] in ds;
      DentryIn(fs.inodes.Keys, fs.inodes[dir].table, b, ds[j.value]);
      StoredName(ds[j.value].name);
    }
  }

  /** Lookup is complete: whenever the directory holds an entry named name,
      in whichever bucket, lookup of (name, |name|) returns one. */
  lemma LookupComplete(fs: Fs, dir: nat, name: CString, b: nat, d: Dentry)
    requires Wf(fs) && dir in fs.inodes && b < HTABLE_SIZE && d in fs.inodes[dir].table[b]
    requires Content(d.name) == name
    ensures LookupSpec(fs, dir, name, |name|).Some?
  {
    DentryIn(fs.inodes.Keys, fs.inodes[dir].table, b, d);
    StoredName(d.name);
    assert name[..|name|] == name;
    var ds := fs.inodes[dir].table[b];
    var k :| 0 <= k < |ds| && ds[k] == d;
    assert Matches(ds[k], name, |name|);
    FindSpec(ds, name, |name|);
  }

  // ---------------------------------------------------------------------
  // tfs_mknod and tfs_remove

  /** The new dentry tfs_mknod creates. */
  function NewDentry(fs: Fs, name: CString, len: nat): (d: Dentry)
    requires len <= |name|
    ensures StrWf(d.name) && Content(d.name) == name[..len] && d.inode == fs.next
  {
    Dentry(Str(name[..len] + [0], len, Bkdr(name[..len])), fs.next)
  }

  /** tfs_mknod(dir, name, len, mkdir): the return value and the new state.
      With len 0 nothing is created; otherwise a fresh inode of the requested
      kind and a dentry for it go to the head of their bucket, whether or not
      the name already exists. */
  ghost function MknodResult(fs: Fs, dir: nat, name: CString, len: nat, mkdir: bool): (res: (int, Fs))
    requires dir in fs.inodes && |fs.inodes[dir].table| == HTABLE_SIZE && len <= |name|
    ensures res.0 == 0 || res.0 == -ENOENT
    ensures res.0 == -ENOENT <==> len == 0
    ensures res.0 != 0 ==> res.1 == fs
  {
    if len == 0 then (-ENOENT, fs)
    else
      var d := NewDentry(fs, name, len);
      var b := BucketOf(name, len);
      var t := fs.inodes[dir].table;
      var inodes := fs.inodes[dir := fs.inodes[dir].(table := t[b := [d] + t[b]])];
      (0, Fs(inodes[fs.next := NewInode(mkdir)], fs.root, fs.next + 1))
  }

  lemma MknodUnfold(fs: Fs, dir: nat, name: CString, len: nat, mkdir: bool)
    requires dir in fs.inodes && |fs.inodes[dir].table| == HTABLE_SIZE && 0 < len <= |name|
    ensures var t := fs.inodes[dir].table;
            var b := BucketOf(name, len);
            var d := NewDentry(fs, name, len);
            MknodResult(fs, dir, name, len, mkdir) ==
              (0, Fs(fs.inodes[dir := fs.inodes[dir].(table := t[b := [d] + t[b]])][fs.next := NewInode(mkdir)], fs.root, fs.next + 1))
  {
  }

  lemma MknodKeepsWf(fs: Fs, dir: nat, name: CString, len: nat, mkdir: bool)
    requires Wf(fs) && dir in fs.inodes && len <= |name|
    ensures Wf(MknodResult(fs, dir, name, len, mkdir).1)
  {
    if len > 0 {
      var fs' := MknodResult(fs, dir, name, len, mkdir).1;
      var d := NewDentry(fs, name, len);
      var b := BucketOf(name, len);
      var keys := fs'.inodes.Keys;
      assert keys == fs.inodes.Keys + {fs.next};
      forall i | i in fs'.inodes
        ensures i < fs'.next && TableWf(keys, fs'.inodes[i].table)
      {
        if i == fs.next {
        } else if i == dir {
          TableGrow(fs.inodes.Keys, keys, fs.inodes[dir].table);
          TablePush(keys, fs.inodes[dir].table, b, d);
        } else {
          TableGrow(fs.inodes.Keys, keys, fs.inodes[i].table);
        }
      }
    }
  }

  /** After creating a name, looking it up finds the new dentry (it sits at
      the head of its bucket), and every other directory is unchanged. */
  lemma MknodThenLookup(fs: Fs, dir: nat, name: CString, len: nat, mkdir: bool)
    requires Wf(fs) && dir in fs.inodes && 0 < len <= |name|
    ensures var fs' := MknodResult(fs, dir, name, len, mkdir).1;
            && dir in fs'.inodes && fs'.inodes[fs.next] == NewInode(mkdir)
            && LookupSpec(fs', dir, name[..len], len) == Some(NewDentry(fs, name, len))
            && (forall i | i in fs.inodes && i != dir :: i in fs'.inodes && fs'.inodes[i] == fs.inodes[i])
  {
    var d := NewDentry(fs, name, len);
    StoredName(d.name);
    assert name[..len][..len] == name[..len];
  }

  /** Looking up a whole name just created finds its new dentry, which names
      an inode of the new file system. */
  lemma MknodFinds(fs: Fs, dir: nat, name: CString, mkdir: bool)
    requires Wf(fs) && dir in fs.inodes && 0 < |name|
    ensures var fs' := MknodResult(fs, dir, name, |name|, mkdir).1;
            && Wf(fs') && dir in fs'.inodes
            && LookupSpec(fs', dir, name, |name|) == Some(NewDentry(fs, name, |name|))
            && fs.next in fs'.inodes
  {
    MknodThenLookup(fs, dir, name, |name|, mkdir);
    MknodKeepsWf(fs, dir, name, |name|, mkdir);
    assert name[..|name|] == name;
  }

  /** The C value of tfs_remove and the new state. */
  ghost function RemoveResult(fs: Fs, dir: nat, name: CString, len: nat): (res: (int, Fs))
    requires Wf(fs) && dir in fs.inodes && len <= |name|
    ensures res.0 == 0 || res.0 == -ENOENT || res.0 == -ENOTEMPTY
    ensures res.0 != 0 ==> res.1 == fs
  {
    if len == 0 then (-ENOENT, fs)
    else
      var b := BucketOf(name, len);
      var ds := fs.inodes[dir].table[b];
      match Find(ds, name, len)
      case None => (-ENOENT, fs)
      case Some(j) =>
        DentryIn(fs.inodes.Keys, fs.inodes[dir].table, b, ds[j]);
        var target := fs.inodes[ds[j].inode];
        if target.kind == Dir && !TableEmpty(target.table) then (-ENOTEMPTY, fs)
        else
          var t := fs.inodes[dir].table;
          (0, fs.(inodes := fs.inodes[dir := fs.inodes[dir].(table := t[b := ds[..j] + ds[j + 1..]])]))
  }

  /** htable_empty: no bucket holds an entry. */
  predicate TableEmpty(t: seq<seq<Dentry>>)
  {
    forall b | 0 <= b < |t| :: t[b] == []
  }

  lemma RemoveKeepsWf(fs: Fs, dir: nat, name: CString, len: nat)
    requires Wf(fs) && dir in fs.inodes && len <= |name|
    ensures Wf(RemoveResult(fs, dir, name, len).1)
  {
    var fs' := RemoveResult(fs, dir, name, len).1;
    if fs' != fs {
      var b := BucketOf(name, len);
      var j := Find(fs.inodes[dir].table[b], name, len).value;
      TableDrop(fs.inodes.Keys, fs.inodes[dir].table, b, j);
    }
  }

  /** What tfs_remove removes: with no matching entry, or a non-empty
      directory as the match, nothing changes; otherwise exactly the first
      matching dentry leaves its bucket and the rest keep their order. */
  lemma RemoveTakesFirstMatch(fs: Fs, dir: nat, name: CString, len: nat)
    requires Wf(fs) && dir in fs.inodes && 0 < len <= |name|
    ensures var res := RemoveResult(fs, dir, name, len);
            var r, fs' := res.0, res.1;
            var b := BucketOf(name, len);
            var ds := fs.inodes[dir].table[b];
            var d := LookupSpec(fs, dir, name, len);
            && (r == -ENOENT <==> d.None?)
            && (r == -ENOTEMPTY <==>
                  (d.Some? && d.value.inode in fs.inodes &&
                   fs.inodes[d.value.inode].kind == Dir && !TableEmpty(fs.inodes[d.value.inode].table)))
            && (r == 0 ==>
                  exists j :: (0 <= j < |ds| && ds[j] == d.value &&
                    fs'.inodes == fs.inodes[dir := fs.inodes[dir].(table := fs.inodes[dir].table[b := ds[..j] + ds[j + 1..]])]))
  {
    var b := BucketOf(name, len);
    var ds := fs.inodes[dir].table[b];
    var j := Find(ds, name, len);
    if j.Some? {
      assert ds[j.value] in ds;
    }
  }

  /** Removing a name just created restores the directory, whether or not
      the name existed before: the new dentry is the first match. */
  lemma RemoveUndoesMknod(fs: Fs, dir: nat, name: CString, mkdir: bool)
    requires Wf(fs) && dir in fs.inodes && 0 < |name|
    ensures var fs1 := MknodResult(fs, dir, name, |name|, mkdir).1;
            Wf(fs1) && dir in fs1.inodes &&
            var res := RemoveResult(fs1, dir, name, |name|);
            res.0 == 0 && res.1.inodes[dir] == fs.inodes[dir] &&
            (forall i | i in fs.inodes :: i in res.1.inodes && res.1.inodes[i] == fs.inodes[i])
  {
    var len := |name|;
    MknodKeepsWf(fs, dir, name, len, mkdir);
    MknodUnfold(fs, dir, name, len, mkdir);
    var fs1 := MknodResult(fs, dir, name, len, mkdir).1;
    var d := NewDentry(fs, name, len);
    var b := BucketOf(name, len);
    var t := fs.inodes[dir].table;
    var ds := [d] + t[b];
    assert fs1.inodes[dir] == fs.inodes[dir].(table := t[b := ds]);
    assert name[..len] == name;
    StoredName(d.name);
    assert fs1.inodes[d.inode] == NewInode(mkdir);
    RemoveHead(fs1, dir, name, len, b, ds);
    assert ds[1..] == t[b];
    assert t[b := ds][b := t[b]] == t;
  }

  /** Removing the name that heads its bucket drops that dentry. */
  lemma RemoveHead(fs: Fs, dir: nat, name: CString, len: nat, b: nat, ds: seq<Dentry>)
    requires Wf(fs) && dir in fs.inodes && 0 < len <= |name| && b == BucketOf(name, len)
    requires ds == fs.inodes[dir].table[b] && ds != [] && Matches(ds[0], name, len)
    requires ds[0].inode in fs.inodes
    requires fs.inodes[ds[0].inode].kind == Dir ==> TableEmpty(fs.inodes[ds[0].inode].table)
    ensures var t := fs.inodes[dir].table;
            RemoveResult(fs, dir, name, len) == (0, fs.(inodes := fs.inodes[dir := fs.inodes[dir].(table := t[b := ds[1..]])]))
  {
    assert Find(ds, name, len) == Some(0);
    assert ds[..0] + ds[1..] == ds[1..];
  }

  // ---------------------------------------------------------------------
  // tfs_namex: path resolution.

  /** A slice of a C string is a C string. */
  function Slice(p: CString, i: nat, j: nat): (c: CString)
    requires i <= j <= |p|
    ensures c == p[i..j]
  {
    assert forall k | 0 <= k < j - i :: p[i..j][k] == p[i + k];
    p[i..j]
  }

  /** The index of the first '/' in p, or |p|. */
  function FirstSlash(p: seq<byte>): (i: nat)
    ensures i <= |p|
  {
    if p == [] || p[0] == SLASH then 0 else 1 + FirstSlash(p[1..])
  }

  /** FirstSlash stops at a '/' (or the end) and passes none. */
  lemma {:induction false} FirstSlashSpec(p: seq<byte>)
    ensures var i := FirstSlash(p);
            (i < |p| ==> p[i] == SLASH) && forall k | 0 <= k < i :: p[k] != SLASH
  {
    if p != [] && p[0] != SLASH {
      FirstSlashSpec(p[1..]);
      forall k | 1 <= k < FirstSlash(p)
        ensures p[k] != SLASH
      {
        assert p[k] == p[1..][k - 1];
      }
    }
  }

  /** The number of '/' bytes p starts with. */
  function SkipSlashes(p: seq<byte>): (i: nat)
    ensures i <= |p| && (i < |p| ==> p[i] != SLASH)
    ensures forall k | 0 <= k < i :: p[k] == SLASH
  {
    if p == [] || p[0] != SLASH then 0 else 1 + SkipSlashes(p[1..])
  }

  /** What tfs_namex returns: its value, the final `*dirat`, the final
      `*name` as an index into the path, and the file system afterwards. */
  datatype NamexResult = NamexResult(r: int, dirat: nat, leaf: nat, fs: Fs)

  /** Where a walk ends: its value, the directory it is in, the rest of the
      path `name_ptr` points to, and the file system. */
  datatype Walk = Walk(r: int, dirat: nat, rest: CString, fs: Fs)

  /** One round of the walk: stop with an error in a file system, or go on
      from a directory in a (possibly grown) file system. */
  datatype Step = Stop(r: int, fs: Fs) | Go(dirat: nat, fs: Fs)

  /** One component comp of tfs_namex: looked up in dirat; when missing,
      created as a directory (mkdir_p) and looked up again, or the walk
      stops with -EEXIST. */
  ghost function Advance(fs: Fs, dirat: nat, comp: CString, mkdirP: bool): (st: Step)
    requires Wf(fs) && dirat in fs.inodes
    ensures st.Go? ==> Wf(st.fs) && st.dirat in st.fs.inodes && fs.inodes.Keys <= st.fs.inodes.Keys
    ensures st.Go? && !mkdirP ==> st.fs == fs
    ensures st.Stop? ==> st == Stop(if mkdirP then -ENOENT else -EEXIST, fs)
  {
    var len := |comp|;
    LookupSound(fs, dirat, comp, len);
    match LookupSpec(fs, dirat, comp, len)
    case Some(d) => Go(d.inode, fs)
    case None =>
      if !mkdirP then Stop(-EEXIST, fs)
      else
        var made := MknodResult(fs, dirat, comp, len, true);
        if made.0 != 0 then Stop(made.0, fs)
        else
          MknodKeepsWf(fs, dirat, comp, len, true);
          MknodThenLookup(fs, dirat, comp, len, true);
          assert comp[..len] == comp;
          LookupSound(made.1, dirat, comp, len);
          match LookupSpec(made.1, dirat, comp, len)
          case None => Stop(-EEXIST, made.1)
          case Some(d) => Go(d.inode, made.1)
  }

  /** The loop of tfs_namex from `name_ptr` == rest in directory dirat:
      every '/'-terminated component is a round of Advance; the loop ends
      at the last component, which is the leaf (-EINVAL when empty). */
  ghost function WalkFrom(fs: Fs, dirat: nat, rest: CString, mkdirP: bool): (w: Walk)
    requires Wf(fs) && dirat in fs.inodes
    decreases |rest|, 2
  {
    Pick(fs, dirat, rest, FirstSlash(rest), mkdirP)
  }

  /** The walk at rest whose first '/' is at i (i == |rest| when none):
      the leaf, or a round. */
  ghost function Pick(fs: Fs, dirat: nat, rest: CString, i: nat, mkdirP: bool): (w: Walk)
    requires Wf(fs) && dirat in fs.inodes && i <= |rest|
    decreases |rest|, 1
  {
    if i == |rest| then Walk(if rest == [] then -EINVAL else 0, dirat, rest, fs)
    else Round(fs, dirat, rest, i, mkdirP)
  }

  /** One round of the loop, on the component rest[..i] ended by '/', and
      the walk after it. */
  ghost function Round(fs: Fs, dirat: nat, rest: CString, i: nat, mkdirP: bool): (w: Walk)
    requires Wf(fs) && dirat in fs.inodes && i < |rest|
    decreases |rest|, 0
  {
    match Advance(fs, dirat, Slice(rest, 0, i), mkdirP)
    case Stop(r, fs') => Walk(r, dirat, rest, fs')
    case Go(d, fs') => WalkFrom(fs', d, Slice(rest, i + 1, |rest|), mkdirP)
  }

  /** A round that descends continues the walk after the component's '/'. */
  lemma WalkGo(fs: Fs, dirat: nat, rest: CString, i: nat, mkdirP: bool, fs': Fs, down: nat)
    requires Wf(fs) && dirat in fs.inodes && i == FirstSlash(rest) && i < |rest|
    requires Advance(fs, dirat, Slice(rest, 0, i), mkdirP) == Go(down, fs')
    ensures Wf(fs') && down in fs'.inodes
    ensures WalkFrom(fs, dirat, rest, mkdirP) == WalkFrom(fs', down, Slice(rest, i + 1, |rest|), mkdirP)
  {
    assert WalkFrom(fs, dirat, rest, mkdirP) == Round(fs, dirat, rest, i, mkdirP);
  }

  /** A round that stops ends the walk in the directory it was in. */
  lemma WalkStop(fs: Fs, dirat: nat, rest: CString, i: nat, mkdirP: bool, r: int, fs': Fs)
    requires Wf(fs) && dirat in fs.inodes && i == FirstSlash(rest) && i < |rest|
    requires Advance(fs, dirat, Slice(rest, 0, i), mkdirP) == Stop(r, fs')
    ensures WalkFrom(fs, dirat, rest, mkdirP) == Walk(r, dirat, rest, fs')
  {
    assert WalkFrom(fs, dirat, rest, mkdirP) == Round(fs, dirat, rest, i, mkdirP);
  }

  /** The last component ends the walk: -EINVAL when it is empty, 0 otherwise. */
  lemma WalkLeaf(fs: Fs, dirat: nat, rest: CString, mkdirP: bool)
    requires Wf(fs) && dirat in fs.inodes && FirstSlash(rest) == |rest|
    ensures WalkFrom(fs, dirat, rest, mkdirP) == Walk(if rest == [] then -EINVAL else 0, dirat, rest, fs)
  {
  }

  /** What every walk guarantees: the file system stays well formed and only
      gains inodes, `*dirat` is an inode, the value is one of the four the C
      code returns, the walk stops at a suffix of the path, which on success
      is a non-empty name without '/' and on -EINVAL empty; without mkdir_p
      nothing changes, and with it a missing component is always created, so
      -EEXIST cannot occur. */
  ghost predicate WalkOk(fs: Fs, rest: CString, mkdirP: bool, w: Walk)
  {
    && Wf(w.fs) && w.dirat in w.fs.inodes && fs.inodes.Keys <= w.fs.inodes.Keys
    && (w.r == 0 || w.r == -EINVAL || w.r == -EEXIST || w.r == -ENOENT)
    && |w.rest| <= |rest| && w.rest == rest[|rest| - |w.rest|..]
    && (w.r == 0 ==> w.rest != [] && forall k | 0 <= k < |w.rest| :: w.rest[k] != SLASH)
    && (w.r == -EINVAL ==> w.rest == [])
    && (!mkdirP ==> w.fs == fs && w.r != -ENOENT)
    && (mkdirP ==> w.r != -EEXIST)
  }

  lemma {:induction false} WalkFacts(fs: Fs, dirat: nat, rest: CString, mkdirP: bool)
    requires Wf(fs) && dirat in fs.inodes
    ensures WalkOk(fs, rest, mkdirP, WalkFrom(fs, dirat, rest, mkdirP))
    decreases |rest|
  {
    var i := FirstSlash(rest);
    if i == |rest| {
      FirstSlashSpec(rest);
      WalkLeaf(fs, dirat, rest, mkdirP);
    } else {
      match Advance(fs, dirat, Slice(rest, 0, i), mkdirP)
      case Stop(r, fs') =>
        WalkStop(fs, dirat, rest, i, mkdirP, r, fs');
      case Go(down, fs') =>
        var tail := Slice(rest, i + 1, |rest|);
        WalkFacts(fs', down, tail, mkdirP);
        WalkGo(fs, dirat, rest, i, mkdirP, fs', down);
        WalkGoOk(fs, rest, tail, mkdirP, fs', WalkFrom(fs', down, tail, mkdirP));
    }
  }

  /** WalkOk carries over a round that descends. */
  lemma WalkGoOk(fs: Fs, rest: CString, tail: CString, mkdirP: bool, fs': Fs, w: Walk)
    requires |tail| < |rest| && tail == rest[|rest| - |tail|..]
    requires fs.inodes.Keys <= fs'.inodes.Keys && (!mkdirP ==> fs' == fs)
    requires WalkOk(fs', tail, mkdirP, w)
    ensures WalkOk(fs, rest, mkdirP, w)
  {
    assert w.rest == rest[|rest| - |w.rest|..] by {
      assert tail[|tail| - |w.rest|..] == rest[|rest| - |w.rest|..];
    }
  }

  /** tfs_namex(dirat, name, mkdir_p): a path starting with '/' is walked
      from the root after all its leading slashes, any other from dirat;
      `*name` is left where it started unless the walk reaches the leaf. */
  ghost function NamexSpec(fs: Fs, dirat: nat, path: CString, mkdirP: bool): (res: NamexResult)
    requires Wf(fs) && ((path == [] || path[0] != SLASH) ==> dirat in fs.inodes)
  {
    var s := if path != [] && path[0] == SLASH then SkipSlashes(path) else 0;
    var from := if path != [] && path[0] == SLASH then fs.root else dirat;
    var w := WalkFrom(fs, from, Slice(path, s, |path|), mkdirP);
    WalkFacts(fs, from, Slice(path, s, |path|), mkdirP);
    NamexResult(w.r, w.dirat, if w.r == 0 || w.r == -EINVAL then |path| - |w.rest| else s, w.fs)
  }

  /** A path split at every '/': the components and, last, the leaf. */
  function Split(p: CString): (parts: seq<CString>)
    ensures |parts| >= 1
    decreases |p|
  {
    var i := FirstSlash(p);
    if i == |p| then [p] else [Slice(p, 0, i)] + Split(Slice(p, i + 1, |p|))
  }

  /** The directory reached from dir by looking up each component in turn. */
  ghost function Resolve(fs: Fs, dir: nat, comps: seq<CString>): Option<nat>
    decreases |comps|
  {
    if comps == [] then Some(dir)
    else
      var c := comps[0];
      match LookupSpec(fs, dir, c, |c|)
      case None => None
      case Some(d) => Resolve(fs, d.inode, comps[1..])
  }

  function Init<T>(parts: seq<T>): seq<T>
    requires |parts| >= 1
  {
    parts[..|parts| - 1]
  }

  function Last<T>(parts: seq<T>): T
    requires |parts| >= 1
  {
    parts[|parts| - 1]
  }

  /** What a walk tells its caller: a component was missing (-EEXIST), or
      the directory reached, the leaf and the value returned. */
  datatype Outcome = Missing | Reached(dirat: nat, leaf: seq<byte>, r: int)

  function OutcomeOf(w: Walk): Outcome
  {
    if w.r == -EEXIST then Missing else Reached(w.dirat, w.rest, w.r)
  }

  /** The outcome resolution predicts: the directory the components lead
      to, the leaf, and -EINVAL exactly when the leaf is empty. */
  function Expected(reached: Option<nat>, leaf: seq<byte>): Outcome
  {
    match reached
    case None => Missing
    case Some(d) => Reached(d, leaf, if leaf == [] then -EINVAL else 0)
  }

  /** Without mkdir_p the walk is resolution of the components of rest:
      -EEXIST exactly when a component is missing; otherwise the directory
      the components lead to, ending at the leaf, with -EINVAL exactly for
      an empty leaf. */
  lemma {:induction false} WalkResolves(fs: Fs, dirat: nat, rest: CString)
    requires Wf(fs) && dirat in fs.inodes
    ensures var parts := Split(rest);
            OutcomeOf(WalkFrom(fs, dirat, rest, false)) == Expected(Resolve(fs, dirat, Init(parts)), Last(parts))
    decreases |rest|
  {
    var i := FirstSlash(rest);
    if i == |rest| {
      WalkLeaf(fs, dirat, rest, false);
      assert Init(Split(rest)) == [];
    } else {
      var comp, tail := Slice(rest, 0, i), Slice(rest, i + 1, |rest|);
      LookupSound(fs, dirat, comp, |comp|);
      match LookupSpec(fs, dirat, comp, |comp|)
      case None =>
        WalkResolvesMissing(fs, dirat, rest, i, comp, tail);
      case Some(d) =>
        WalkResolves(fs, d.inode, tail);
        WalkResolvesFound(fs, dirat, rest, i, comp, tail, d);
    }
  }

  lemma WalkResolvesMissing(fs: Fs, dirat: nat, rest: CString, i: nat, comp: CString, tail: CString)
    requires Wf(fs) && dirat in fs.inodes && i == FirstSlash(rest) && i < |rest|
    requires comp == Slice(rest, 0, i) && tail == Slice(rest, i + 1, |rest|)
    requires LookupSpec(fs, dirat, comp, |comp|).None?
    ensures var parts := Split(rest);
            OutcomeOf(WalkFrom(fs, dirat, rest, false)) == Expected(Resolve(fs, dirat, Init(parts)), Last(parts))
  {
    WalkStop(fs, dirat, rest, i, false, -EEXIST, fs);
    SplitInit(rest, i, comp, tail);
    ResolveStep(fs, dirat, comp, Init(Split(tail)));
  }

  lemma WalkResolvesFound(fs: Fs, dirat: nat, rest: CString, i: nat, comp: CString, tail: CString, d: Dentry)
    requires Wf(fs) && dirat in fs.inodes && i == FirstSlash(rest) && i < |rest|
    requires comp == Slice(rest, 0, i) && tail == Slice(rest, i + 1, |rest|)
    requires LookupSpec(fs, dirat, comp, |comp|) == Some(d) && d.inode in fs.inodes
    requires var parts := Split(tail);
             OutcomeOf(WalkFrom(fs, d.inode, tail, false)) == Expected(Resolve(fs, d.inode, Init(parts)), Last(parts))
    ensures var parts := Split(rest);
            OutcomeOf(WalkFrom(fs, dirat, rest, false)) == Expected(Resolve(fs, dirat, Init(parts)), Last(parts))
  {
    WalkGo(fs, dirat, rest, i, false, fs, d.inode);
    SplitInit(rest, i, comp, tail);
    ResolveStep(fs, dirat, comp, Init(Split(tail)));
  }

  /** A component ended by '/' heads the split; the leaf is the rest's. */
  lemma SplitInit(p: CString, i: nat, head: CString, tail: CString)
    requires i == FirstSlash(p) && i < |p| && head == Slice(p, 0, i) && tail == Slice(p, i + 1, |p|)
    ensures Split(p) == [head] + Split(tail)
    ensures Init(Split(p)) == [head] + Init(Split(tail)) && Last(Split(p)) == Last(Split(tail))
  {
    var parts, rest := Split(p), Split(tail);
    assert parts == [head] + rest;
    assert parts[..|parts| - 1] == [head] + rest[..|rest| - 1];
  }

  lemma ResolveStep(fs: Fs, dir: nat, c: CString, cs: seq<CString>)
    ensures match LookupSpec(fs, dir, c, |c|)
            case None => Resolve(fs, dir, [c] + cs) == None
            case Some(d) => Resolve(fs, dir, [c] + cs) == Resolve(fs, d.inode, cs)
  {
    assert ([c] + cs)[1..] == cs;
  }

  /** The leaf is a suffix of what was split. */
  lemma {:induction false} SplitLastSuffix(p: CString)
    ensures |Last(Split(p))| <= |p| && p[|p| - |Last(Split(p))|..] == Last(Split(p))
    decreases |p|
  {
    var i := FirstSlash(p);
    if i < |p| {
      var tail := Slice(p, i + 1, |p|);
      SplitLastSuffix(tail);
      SplitInit(p, i, Slice(p, 0, i), tail);
      assert p[|p| - |Last(Split(tail))|..] == tail[|tail| - |Last(Split(tail))|..];
    }
  }

  /** tfs_namex without mkdir_p changes nothing and resolves the path: from
      the root past all leading slashes when it starts with '/', from dirat
      otherwise. -EEXIST exactly when a component is missing, and then
      `*name` stays after the leading slashes; otherwise `*dirat` is the
      directory the components lead to and `*name` the start of the leaf
      (LeafIsSuffix), with -EINVAL exactly when the leaf is empty. */
  lemma NamexResolves(fs: Fs, dirat: nat, path: CString)
    requires Wf(fs) && ((path == [] || path[0] != SLASH) ==> dirat in fs.inodes)
    ensures var res := NamexSpec(fs, dirat, path, false);
            var s := if path != [] && path[0] == SLASH then SkipSlashes(path) else 0;
            var from := if path != [] && path[0] == SLASH then fs.root else dirat;
            var parts := Split(Slice(path, s, |path|));
            var reached := Resolve(fs, from, Init(parts));
            var leaf := Last(parts);
            && res.fs == fs
            && (res.r == -EEXIST <==> reached.None?)
            && (res.r == -EEXIST ==> res.leaf == s)
            && (reached.Some? ==> res.dirat == reached.value && res.r == (if leaf == [] then -EINVAL else 0))
            && (reached.Some? ==> res.leaf == |path| - |leaf|)
  {
    var s := if path != [] && path[0] == SLASH then SkipSlashes(path) else 0;
    var from := if path != [] && path[0] == SLASH then fs.root else dirat;
    var rest := Slice(path, s, |path|);
    WalkResolves(fs, from, rest);
    WalkFacts(fs, from, rest, false);
  }

  /** The leaf of the rest of a path after s is the path's tail: the last
      |leaf| bytes of the path. */
  lemma LeafIsSuffix(path: CString, s: nat)
    requires s <= |path|
    ensures var leaf := Last(Split(Slice(path, s, |path|)));
            |leaf| <= |path| - s && path[|path| - |leaf|..] == leaf
  {
    var rest := Slice(path, s, |path|);
    SplitLastSuffix(rest);
    var leaf := Last(Split(rest));
    assert path[|path| - |leaf|..] == rest[|path| - s - |leaf|..];
  }

  // ---------------------------------------------------------------------
  // tfs_namex with mkdir_p: creating the missing directories.

  /** An old inode n after mkdir_p, as n': same kind, size and bucket count;
      each bucket only gained dentries at its head, each naming an inode
      outside keys (one that did not exist before). */
  ghost predicate Gained(keys: set<nat>, n: Inode, n': Inode)
  {
    && n'.kind == n.kind && n'.size == n.size && |n'.table| == |n.table|
    && forall b | 0 <= b < |n.table| ::
         && |n.table[b]| <= |n'.table[b]|
         && n'.table[b][|n'.table[b]| - |n.table[b]|..] == n.table[b]
         && forall j | 0 <= j < |n'.table[b]| - |n.table[b]| :: n'.table[b][j].inode !in keys
  }

  /** fs' extends fs the way mkdir_p does: the root stays, every new inode
      is a directory, every old inode keeps its kind and contents and only
      gains dentries for new inodes, and every lookup that succeeded in fs
      finds the same dentry in fs'. */
  ghost predicate Grows(fs: Fs, fs': Fs)
  {
    && fs'.root == fs.root
    && (forall i | i in fs'.inodes && i !in fs.inodes :: fs'.inodes[i].kind == Dir)
    && (forall i | i in fs.inodes :: i in fs'.inodes && Gained(fs.inodes.Keys, fs.inodes[i], fs'.inodes[i]))
    && (forall dir: nat, c: CString | LookupSpec(fs, dir, c, |c|).Some? ::
          LookupSpec(fs', dir, c, |c|) == LookupSpec(fs, dir, c, |c|))
  }

  lemma GrowsRefl(fs: Fs)
    ensures Grows(fs, fs)
  {
    forall i | i in fs.inodes
      ensures Gained(fs.inodes.Keys, fs.inodes[i], fs.inodes[i])
    {
      var t := fs.inodes[i].table;
      forall b | 0 <= b < |t|
        ensures t[b][|t[b]| - |t[b]|..] == t[b]
      {
      }
    }
  }

  lemma GrowsTrans(fs1: Fs, fs2: Fs, fs3: Fs)
    requires Grows(fs1, fs2) && Grows(fs2, fs3)
    ensures Grows(fs1, fs3)
  {
    forall i | i in fs1.inodes
      ensures i in fs3.inodes && Gained(fs1.inodes.Keys, fs1.inodes[i], fs3.inodes[i])
    {
      GainedTrans(fs1.inodes.Keys, fs2.inodes.Keys, fs1.inodes[i], fs2.inodes[i], fs3.inodes[i]);
    }
    forall i | i in fs3.inodes && i !in fs1.inodes
      ensures fs3.inodes[i].kind == Dir
    {
      if i in fs2.inodes {
        assert Gained(fs2.inodes.Keys, fs2.inodes[i], fs3.inodes[i]);
      }
    }
  }

  lemma GainedTrans(keys1: set<nat>, keys2: set<nat>, n1: Inode, n2: Inode, n3: Inode)
    requires keys1 <= keys2 && Gained(keys1, n1, n2) && Gained(keys2, n2, n3)
    ensures Gained(keys1, n1, n3)
  {
    forall b | 0 <= b < |n1.table|
      ensures && |n1.table[b]| <= |n3.table[b]|
              && n3.table[b][|n3.table[b]| - |n1.table[b]|..] == n1.table[b]
              && forall j | 0 <= j < |n3.table[b]| - |n1.table[b]| :: n3.table[b][j].inode !in keys1
    {
      var t1, t2, t3 := n1.table[b], n2.table[b], n3.table[b];
      var k2 := |t3| - |t2|;
      assert t3 == t3[..k2] + t2;
      assert t2 == t2[..|t2| - |t1|] + t1;
      assert t3[|t3| - |t1|..] == t1;
      forall j | 0 <= j < |t3| - |t1|
        ensures t3[j].inode !in keys1
      {
        if k2 <= j {
          assert t3[j] == t2[j - k2];
        }
      }
    }
  }

  /** Creating a directory under a name that lookup does not find grows the
      file system. */
  lemma MknodGrows(fs: Fs, dir: nat, c: CString)
    requires Wf(fs) && dir in fs.inodes && 0 < |c|
    requires LookupSpec(fs, dir, c, |c|).None?
    ensures Grows(fs, MknodResult(fs, dir, c, |c|, true).1)
  {
    var fs' := MknodResult(fs, dir, c, |c|, true).1;
    MknodUnfold(fs, dir, c, |c|, true);
    forall i | i in fs.inodes
      ensures i in fs'.inodes && Gained(fs.inodes.Keys, fs.inodes[i], fs'.inodes[i])
    {
      MknodGained(fs, dir, c, i);
    }
    forall d: nat, c': CString | LookupSpec(fs, d, c', |c'|).Some?
      ensures LookupSpec(fs', d, c', |c'|) == LookupSpec(fs, d, c', |c'|)
    {
      MknodKeepsLookup(fs, dir, c, d, c');
    }
  }

  lemma MknodGained(fs: Fs, dir: nat, c: CString, i: nat)
    requires Wf(fs) && dir in fs.inodes && 0 < |c| && i in fs.inodes
    ensures var fs' := MknodResult(fs, dir, c, |c|, true).1;
            i in fs'.inodes && Gained(fs.inodes.Keys, fs.inodes[i], fs'.inodes[i])
  {
    var fs' := MknodResult(fs, dir, c, |c|, true).1;
    MknodUnfold(fs, dir, c, |c|, true);
    var b := BucketOf(c, |c|);
    var n := NewDentry(fs, c, |c|);
    assert i < fs.next && n.inode !in fs.inodes;
    var t0, t1 := fs.inodes[i].table, fs'.inodes[i].table;
    forall e | 0 <= e < |t0|
      ensures t1[e][|t1[e]| - |t0[e]|..] == t0[e]
    {
      if i == dir && e == b {
        assert t1[e] == [n] + t0[e];
      }
    }
  }

  lemma MknodKeepsLookup(fs: Fs, dir: nat, c: CString, d: nat, c': CString)
    requires Wf(fs) && dir in fs.inodes && 0 < |c|
    requires LookupSpec(fs, dir, c, |c|).None? && LookupSpec(fs, d, c', |c'|).Some?
    ensures LookupSpec(MknodResult(fs, dir, c, |c|, true).1, d, c', |c'|) == LookupSpec(fs, d, c', |c'|)
  {
    var fs' := MknodResult(fs, dir, c, |c|, true).1;
    MknodUnfold(fs, dir, c, |c|, true);
    assert d in fs.inodes && d != fs.next;
    if d == dir && BucketOf(c', |c'|) == BucketOf(c, |c|) {
      var n := NewDentry(fs, c, |c|);
      var ds := fs.inodes[dir].table[BucketOf(c, |c|)];
      assert c[..|c|] == c;
      StoredName(n.name);
      assert c' != c;
      assert !Matches(n, c', |c'|);
      assert ([n] + ds)[1..] == ds;
    }
  }

  /** With mkdir_p the walk creates every missing component as a directory,
      so it reaches the directory the components lead to in the grown file
      system: -ENOENT exactly when a component is empty (an empty name
      cannot be created); otherwise the walk ends at the leaf, with -EINVAL
      exactly when the leaf is empty. */
  lemma {:induction false} WalkCreates(fs: Fs, dirat: nat, rest: CString)
    requires Wf(fs) && dirat in fs.inodes
    ensures var w := WalkFrom(fs, dirat, rest, true);
            var parts := Split(rest);
            && Grows(fs, w.fs)
            && (w.r == -ENOENT <==> [] in Init(parts))
            && (w.r != -ENOENT ==> Resolve(w.fs, dirat, Init(parts)) == Some(w.dirat))
            && (w.r != -ENOENT ==> w.rest == Last(parts) && w.r == (if Last(parts) == [] then -EINVAL else 0))
    decreases |rest|
  {
    var i := FirstSlash(rest);
    if i == |rest| {
      WalkLeaf(fs, dirat, rest, true);
      assert Init(Split(rest)) == [];
      GrowsRefl(fs);
    } else {
      var comp, tail := Slice(rest, 0, i), Slice(rest, i + 1, |rest|);
      SplitInit(rest, i, comp, tail);
      AdvanceCreates(fs, dirat, comp);
      match Advance(fs, dirat, comp, true)
      case Stop(r, fs') =>
        WalkStop(fs, dirat, rest, i, true, r, fs');
        GrowsRefl(fs);
      case Go(down, fs') =>
        WalkGo(fs, dirat, rest, i, true, fs', down);
        WalkCreates(fs', down, tail);
        var w := WalkFrom(fs', down, tail, true);
        GrowsTrans(fs, fs', w.fs);
        ResolveStep(w.fs, dirat, comp, Init(Split(tail)));
    }
  }

  /** One round with mkdir_p: it stops exactly on an empty component;
      otherwise it grows the file system so that the component is found
      and names the directory the walk goes on from. */
  lemma AdvanceCreates(fs: Fs, dirat: nat, comp: CString)
    requires Wf(fs) && dirat in fs.inodes
    ensures var st := Advance(fs, dirat, comp, true);
            && (st.Stop? <==> comp == [])
            && (st.Go? ==> Grows(fs, st.fs) && LookupSpec(st.fs, dirat, comp, |comp|).Some?
                           && LookupSpec(st.fs, dirat, comp, |comp|).value.inode == st.dirat)
  {
    LookupSound(fs, dirat, comp, |comp|);
    if LookupSpec(fs, dirat, comp, |comp|).Some? {
      GrowsRefl(fs);
    } else if comp != [] {
      MknodGrows(fs, dirat, comp);
      MknodThenLookup(fs, dirat, comp, |comp|, true);
      assert comp[..|comp|] == comp;
    }
  }

  /** tfs_namex with mkdir_p: the path is resolved as without it, from the
      root past all leading slashes or from dirat, but in a file system grown
      by the missing directories; it fails with -ENOENT, leaving `*name`
      after the leading slashes, exactly when a component is empty;
      otherwise `*dirat` is the directory the components lead to, `*name`
      the start of the leaf and -EINVAL the answer exactly for an empty
      leaf. */
  lemma NamexCreates(fs: Fs, dirat: nat, path: CString)
    requires Wf(fs) && ((path == [] || path[0] != SLASH) ==> dirat in fs.inodes)
    ensures var res := NamexSpec(fs, dirat, path, true);
            var s := if path != [] && path[0] == SLASH then SkipSlashes(path) else 0;
            var from := if path != [] && path[0] == SLASH then fs.root else dirat;
            var parts := Split(Slice(path, s, |path|));
            var leaf := Last(parts);
            && Grows(fs, res.fs)
            && (res.r == -ENOENT <==> [] in Init(parts))
            && (res.r == -ENOENT ==> res.leaf == s)
            && (res.r != -ENOENT ==> Resolve(res.fs, from, Init(parts)) == Some(res.dirat))
            && (res.r != -ENOENT ==> res.r == (if leaf == [] then -EINVAL else 0) && res.leaf == |path| - |leaf|)
  {
    var s := if path != [] && path[0] == SLASH then SkipSlashes(path) else 0;
    var from := if path != [] && path[0] == SLASH then fs.root else dirat;
    WalkCreates(fs, from, Slice(path, s, |path|));
  }

  /** mkdir_p never redirects a path: whatever the components led to before
      a file system grew, they lead to afterwards. */
  lemma {:induction false} ResolveKept(fs: Fs, fs': Fs, dir: nat, comps: seq<CString>)
    requires Grows(fs, fs') && Resolve(fs, dir, comps).Some?
    ensures Resolve(fs', dir, comps) == Resolve(fs, dir, comps)
    decreases |comps|
  {
    if comps != [] {
      var c := comps[0];
      var d := LookupSpec(fs, dir, c, |c|).value;
      ResolveKept(fs, fs', d.inode, comps[1..]);
    }
  }

  // ---------------------------------------------------------------------
  // The file system's state.

  class FileSystem {
    var inodes: map<nat, Inode>
    /** tmpfs_root */
    var root: nat
    var next: nat

    ghost function State(): Fs
      reads this
    {
      Fs(inodes, root, next)
    }

    ghost predicate Valid()
      reads this
    {
      Wf(State())
    }

    /** init_tmpfs: a file system holding only an empty root directory. */
    constructor Init()
      ensures Valid() && inodes == map[0 := NewInode(true)] && root == 0
    {
      inodes := map[0 := NewInode(true)];
      root := 0;
      next := 1;
    }

    /** tfs_lookup: walks the bucket list of the name's hash. */
    method Lookup(dir: nat, name: CString, len: nat) returns (d: Option<Dentry>)
      requires Valid() && dir in inodes && len <= |name|
      ensures d == LookupSpec(State(), dir, name, len)
    {
      var h := HashChars(name, len);
      var ds := inodes[dir].table[Bucket(h)];
      var j := SearchBucket(ds, name, len);
      if j.Some? {
        return Some(ds[j.value]);
      }
      return None;
    }

    /** tfs_mknod (tfs_mkdir with mkdir, tfs_creat without). */
    method Mknod(dir: nat, name: CString, len: nat, mkdir: bool) returns (r: int)
      requires Valid() && dir in inodes && len <= |name|
      modifies this
      ensures (r, State()) == MknodResult(old(State()), dir, name, len, mkdir)
      ensures Valid()
    {
      ghost var fs := State();
      if len == 0 {
        return -ENOENT;
      }
      var ino := next;
      var s := InitString(name, len);
      var d := Dentry(s, ino);
      var b := Bucket(s.hash);
      var t := inodes[dir].table;
      MknodUnfold(fs, dir, name, len, mkdir);
      assert d == NewDentry(fs, name, len);
      assert b == BucketOf(name, len);
      ghost var want := MknodResult(fs, dir, name, len, mkdir);
      inodes := inodes[dir := inodes[dir].(table := t[b := [d] + t[b]])][ino := NewInode(mkdir)];
      next, r := next + 1, 0;
      assert inodes == want.1.inodes;
      assert next == want.1.next;
      assert root == want.1.root;
      assert State() == want.1;
      MknodKeepsWf(fs, dir, name, len, mkdir);
    }

    /** tfs_namex: returns the C value, the final `*dirat` and the final
        `*name` as an index into path. */
    method Namex(dirat: nat, path: CString, mkdirP: bool) returns (r: int, dir: nat, leaf: nat)
      requires Valid()
      requires (path == [] || path[0] != SLASH) ==> dirat in inodes && inodes[dirat].kind == Dir
      modifies this
      ensures NamexResult(r, dir, leaf, State()) == NamexSpec(old(State()), dirat, path, mkdirP)
      ensures Valid()
    {
      ghost var fs0 := State();
      var start := 0;
      dir := dirat;
      if path != [] && path[0] == SLASH {
        dir := root;
        start := LeadingSlashes(path);
      }
      NamexIsWalk(fs0, dirat, path, mkdirP, start, dir);
      ghost var goal := WalkFrom(fs0, dir, Slice(path, start, |path|), mkdirP);
      var pos := start;
      while pos < |path|
        invariant Valid() && dir in inodes && start <= pos <= |path|
        invariant WalkFrom(State(), dir, Slice(path, pos, |path|), mkdirP) == goal
        decreases |path| - pos
      {
        var la := ComponentEnd(path, pos);
        if la == |path| {
          break;
        }
        var stop, err, down := Descend(dir, path, pos, la, mkdirP, goal);
        if stop {
          return err, dir, start;
        }
        dir := down;
        pos := la + 1;
      }
      WalkLeaf(State(), dir, Slice(path, pos, |path|), mkdirP);
      leaf := pos;
      r := if pos == |path| then -EINVAL else 0;
    }

    /** One round of the tfs_namex loop: look up the component path[pos..la]
        in dir, creating it first when mkdir_p asks for it; either the walk
        stops here with an error and nothing changed, or it goes on from the
        inode found, past the '/' at la, to the same end. */
    method Descend(dir: nat, path: CString, pos: nat, la: nat, mkdirP: bool, ghost goal: Walk)
      returns (stop: bool, r: int, down: nat)
      requires Valid() && dir in inodes
      requires pos <= la < |path| && la - pos == FirstSlash(Slice(path, pos, |path|))
      requires WalkFrom(State(), dir, Slice(path, pos, |path|), mkdirP) == goal
      modifies this
      ensures Valid()
      ensures stop ==> State() == old(State()) && r == (if mkdirP then -ENOENT else -EEXIST)
                       && goal == Walk(r, dir, Slice(path, pos, |path|), State())
      ensures !stop ==> down in inodes && WalkFrom(State(), down, Slice(path, la + 1, |path|), mkdirP) == goal
    {
      ghost var fs := State();
      var len := la - pos;
      var component := Slice(path, pos, la);
      var dent := Lookup(dir, component, len);
      LookupSound(fs, dir, component, len);
      if dent.None? && mkdirP {
        var err := Mknod(dir, component, len, true);
        if err != 0 {
          assert Advance(fs, dir, component, mkdirP) == Stop(err, fs);
          WalkHalt(fs, dir, path, pos, la, mkdirP, err, State(), goal);
          return true, err, 0;
        }
        MknodFinds(fs, dir, component, true);
        dent := Lookup(dir, component, len);
      }
      if dent.None? {
        assert Advance(fs, dir, component, mkdirP) == Stop(-EEXIST, fs);
        WalkHalt(fs, dir, path, pos, la, mkdirP, -EEXIST, State(), goal);
        return true, -EEXIST, 0;
      }
      assert Advance(fs, dir, component, mkdirP) == Go(dent.value.inode, State());
      WalkNext(fs, dir, path, pos, la, mkdirP, State(), dent.value.inode, goal);
      return false, 0, dent.value.inode;
    }

    /** tfs_remove. */
    method Remove(dir: nat, name: CString, len: nat) returns (r: int)
      requires Valid() && dir in inodes && len <= |name|
      modifies this
      ensures (r, State()) == RemoveResult(old(State()), dir, name, len)
      ensures Valid()
    {
      ghost var fs := State();
      if len == 0 {
        return -ENOENT;
      }
      var h := HashChars(name, len);
      var b := Bucket(h);
      var ds := inodes[dir].table[b];
      var j := SearchBucket(ds, name, len);
      if j.None? {
        return -ENOENT;
      }
      var i := j.value;
      assert ds[i] in ds;
      var target := inodes[ds[i].inode];
      if target.kind == Dir {
        var empty := IsEmpty(target.table);
        if !empty {
          return -ENOTEMPTY;
        }
      }
      ghost var want := RemoveResult(fs, dir, name, len);
      var t := inodes[dir].table;
      inodes := inodes[dir := inodes[dir].(table := t[b := ds[..i] + ds[i + 1..]])];
      r := 0;
      assert b == BucketOf(name, len);
      assert State() == want.1;
      RemoveKeepsWf(fs, dir, name, len);
    }
  }

  /** htable_empty, bucket by bucket. */
  method IsEmpty(t: seq<seq<Dentry>>) returns (empty: bool)
    ensures empty == TableEmpty(t)
  {
    for b := 0 to |t|
      invariant forall c | 0 <= c < b :: t[c] == []
    {
      if t[b] != [] {
        return false;
      }
    }
    return true;
  }

  /** The walk over one hash bucket that tfs_lookup and tfs_remove share:
      the index of the first dentry whose name is name[..len]. */
  method SearchBucket(ds: seq<Dentry>, name: CString, len: nat) returns (j: Option<nat>)
    ensures j == Find(ds, name, len)
  {
    FindSpec(ds, name, len);
    var i := 0;
    while i < |ds|
      invariant i <= |ds|
      invariant forall k | 0 <= k < i :: !Matches(ds[k], name, len)
    {
      if ds[i].name.len == len && CStr(ds[i].name.str) == name {
        return Some(i);
      }
      i := i + 1;
    }
    return None;
  }

  /** The loop of tfs_namex that skips the leading '/' bytes of an
      absolute path. */
  method LeadingSlashes(path: CString) returns (start: nat)
    ensures start == SkipSlashes(path)
  {
    start := 0;
    while start < |path| && path[start] == SLASH
      invariant start <= |path| && forall k | 0 <= k < start :: path[k] == SLASH
    {
      start := start + 1;
    }
    SkipSlashesIs(path, start);
  }

  /** The lookahead loop of tfs_namex: the end of the component starting at
      pos, at the next '/' or the end of the path. */
  method ComponentEnd(path: CString, pos: nat) returns (la: nat)
    requires pos <= |path|
    ensures pos <= la <= |path| && la - pos == FirstSlash(Slice(path, pos, |path|))
  {
    la := pos;
    while la < |path| && path[la] != SLASH
      invariant pos <= la <= |path| && forall k | pos <= k < la :: path[k] != SLASH
    {
      la := la + 1;
    }
    FirstSlashIs(Slice(path, pos, |path|), la - pos);
  }

  /** A round of the loop at path[pos..la] that descends keeps the walk's
      result. */
  lemma WalkNext(fs: Fs, dirat: nat, path: CString, pos: nat, la: nat, mkdirP: bool,
                 fs': Fs, down: nat, goal: Walk)
    requires Wf(fs) && dirat in fs.inodes
    requires pos <= la < |path| && la - pos == FirstSlash(Slice(path, pos, |path|))
    requires Advance(fs, dirat, Slice(path, pos, la), mkdirP) == Go(down, fs')
    requires WalkFrom(fs, dirat, Slice(path, pos, |path|), mkdirP) == goal
    ensures Wf(fs') && down in fs'.inodes && WalkFrom(fs', down, Slice(path, la + 1, |path|), mkdirP) == goal
  {
    RestSplit(path, pos, la);
    WalkGo(fs, dirat, Slice(path, pos, |path|), la - pos, mkdirP, fs', down);
  }

  /** A round of the loop at path[pos..la] that stops is the walk's result. */
  lemma WalkHalt(fs: Fs, dirat: nat, path: CString, pos: nat, la: nat, mkdirP: bool,
                 r: int, fs': Fs, goal: Walk)
    requires Wf(fs) && dirat in fs.inodes
    requires pos <= la < |path| && la - pos == FirstSlash(Slice(path, pos, |path|))
    requires Advance(fs, dirat, Slice(path, pos, la), mkdirP) == Stop(r, fs')
    requires WalkFrom(fs, dirat, Slice(path, pos, |path|), mkdirP) == goal
    ensures goal == Walk(r, dirat, Slice(path, pos, |path|), fs') && fs' == fs
    ensures r == (if mkdirP then -ENOENT else -EEXIST)
  {
    RestSplit(path, pos, la);
    WalkStop(fs, dirat, Slice(path, pos, |path|), la - pos, mkdirP, r, fs');
  }

  /** tfs_namex is the walk from where the leading slashes end. */
  lemma NamexIsWalk(fs: Fs, dirat: nat, path: CString, mkdirP: bool, start: nat, from: nat)
    requires Wf(fs) && ((path == [] || path[0] != SLASH) ==> dirat in fs.inodes)
    requires start == (if path != [] && path[0] == SLASH then SkipSlashes(path) else 0)
    requires from == (if path != [] && path[0] == SLASH then fs.root else dirat)
    ensures start <= |path| && from in fs.inodes
    ensures var w := WalkFrom(fs, from, Slice(path, start, |path|), mkdirP);
            |w.rest| <= |path| - start &&
            NamexSpec(fs, dirat, path, mkdirP)
            == NamexResult(w.r, w.dirat, if w.r == 0 || w.r == -EINVAL then |path| - |w.rest| else start, w.fs)
  {
    WalkFacts(fs, from, Slice(path, start, |path|), mkdirP);
  }

  /** The rest of the path at pos, split at the '/' at la. */
  lemma RestSplit(path: CString, pos: nat, la: nat)
    requires pos <= la < |path|
    ensures var rest := Slice(path, pos, |path|);
            Slice(rest, 0, la - pos) == Slice(path, pos, la) && Slice(rest, la - pos + 1, |rest|) == Slice(path, la + 1, |path|)
  {
  }

  lemma SkipSlashesIs(p: seq<byte>, i: nat)
    requires i <= |p| && (i < |p| ==> p[i] != SLASH) && forall k | 0 <= k < i :: p[k] == SLASH
    ensures SkipSlashes(p) == i
  {
    if i > 0 {
      SkipSlashesIs(p[1..], i - 1);
    }
  }

  lemma {:induction false} FirstSlashIs(p: seq<byte>, i: nat)
    requires i <= |p| && (i < |p| ==> p[i] == SLASH) && forall k | 0 <= k < i :: p[k] != SLASH
    ensures FirstSlash(p) == i
  {
    if i > 0 {
      FirstSlashIs(p[1..], i - 1);
    }
  }
}
