/** Directory scans of the tmpfs server: `tfs_scan` walks a directory's
    dentries in hash-table order and `dirent_filler` packs one `struct
    dirent` per entry into a caller's buffer, as long as the records fit.

    A record is laid out as on the little-endian target: d_ino (8 bytes),
    d_off (8), d_reclen (2), d_type (1), then the name and its NUL. Readers
    step from one record to the next by d_reclen (`Parse`). */
module DirScan {
  import opened Common
  import opened Tmpfs

  /** Offset of d_name: sizeof d_ino + d_off + d_reclen + d_type. */
  const NAME_OFFSET: nat := 19
  /** 2^16: d_reclen is an unsigned short. */
  const U16_LIMIT: nat := 0x1_0000

  // ---------------------------------------------------------------------
  // Little-endian integers.

  function Pow256(n: nat): (r: nat)
    ensures r >= 1
  {
    if n == 0 then 1 else 256 * Pow256(n - 1)
  }

  /** The n low bytes of x, least significant first. */
  function LittleEndian(x: nat, n: nat): (bs: seq<byte>)
    ensures |bs| == n
  {
    if n == 0 then [] else [x % 256] + LittleEndian(x / 256, n - 1)
  }

  function FromLittleEndian(bs: seq<byte>): nat
  {
    if bs == [] then 0 else bs[0] + 256 * FromLittleEndian(bs[1..])
  }

  /** Storing x in n bytes keeps x modulo 256^n, and reading it back gives that. */
  lemma {:induction false} LittleEndianRoundTrip(x: nat, n: nat)
    ensures FromLittleEndian(LittleEndian(x, n)) == x % Pow256(n)
  {
    if n > 0 {
      var bs := LittleEndian(x, n);
      assert bs[1..] == LittleEndian(x / 256, n - 1);
      LittleEndianRoundTrip(x / 256, n - 1);
      ModSplit(x, 256, Pow256(n - 1));
    }
  }

  /** A value below 256^n reads back unchanged. */
  lemma LittleEndianKeeps(x: nat, n: nat)
    requires x < Pow256(n)
    ensures FromLittleEndian(LittleEndian(x, n)) == x
  {
    LittleEndianRoundTrip(x, n);
    DivModUnique(x, Pow256(n), 0, x);
  }

  lemma Pow256Widths()
    ensures Pow256(2) == U16_LIMIT && Pow256(8) == U64_LIMIT
  {
  }

  // ---------------------------------------------------------------------
  // Records.

  /** A directory record as its fields hold it. */
  datatype Dirent = Dirent(ino: nat, off: nat, reclen: nat, dtype: byte, name: CString)

  /** Every field fits its C type. */
  predicate Representable(d: Dirent)
  {
    d.ino < U64_LIMIT && d.off < U64_LIMIT && d.reclen < U16_LIMIT
  }

  /** The bytes dirent_filler stores for d. */
  function Encode(d: Dirent): (bs: seq<byte>)
    ensures |bs| == |d.name| + NAME_OFFSET + 1
  {
    LittleEndian(d.ino, 8) + LittleEndian(d.off, 8) + LittleEndian(d.reclen, 2) + [d.dtype] + d.name + [0]
  }

  /** Reads the record at the start of bs: the header fields and d_name up
      to its NUL; None when bs ends before either. */
  function Decode(bs: seq<byte>): Option<Dirent>
  {
    if |bs| < NAME_OFFSET then None
    else
      var name := CStr(bs[NAME_OFFSET..]);
      if NAME_OFFSET + |name| == |bs| then None
      else Some(Dirent(FromLittleEndian(bs[..8]), FromLittleEndian(bs[8..16]),
                       FromLittleEndian(bs[16..18]), bs[18], name))
  }

  lemma {:induction false} CStrStops(c: CString, rest: seq<byte>)
    ensures CStr(c + [0] + rest) == c
  {
    if c != [] {
      assert (c + [0] + rest)[1..] == c[1..] + [0] + rest;
      CStrStops(c[1..], rest);
    }
  }

  /** A representable record reads back as itself, whatever follows it. */
  lemma DecodeEncode(d: Dirent, rest: seq<byte>)
    requires Representable(d)
    ensures Decode(Encode(d) + rest) == Some(d)
  {
    var bs := Encode(d) + rest;
    Pow256Widths();
    assert FromLittleEndian(bs[..8]) == d.ino by {
      assert bs[..8] == LittleEndian(d.ino, 8);
      LittleEndianKeeps(d.ino, 8);
    }
    assert FromLittleEndian(bs[8..16]) == d.off by {
      assert bs[8..16] == LittleEndian(d.off, 8);
      LittleEndianKeeps(d.off, 8);
    }
    assert FromLittleEndian(bs[16..18]) == d.reclen by {
      assert bs[16..18] == LittleEndian(d.reclen, 2);
      LittleEndianKeeps(d.reclen, 2);
    }
    assert bs[18] == d.dtype;
    assert CStr(bs[NAME_OFFSET..]) == d.name by {
      assert bs[NAME_OFFSET..] == d.name + [0] + rest;
      CStrStops(d.name, rest);
    }
  }

  /** Records one after another. */
  function Pack(ds: seq<Dirent>): seq<byte>
  {
    if ds == [] then [] else Encode(ds[0]) + Pack(ds[1..])
  }

  lemma {:induction false} PackSnoc(ds: seq<Dirent>, d: Dirent)
    ensures Pack(ds + [d]) == Pack(ds) + Encode(d)
  {
    if ds != [] {
      assert (ds + [d])[1..] == ds[1..] + [d];
      PackSnoc(ds[1..], d);
    }
  }

  /** How a reader walks cnt records: decode one, then skip d_reclen bytes. */
  function Parse(bs: seq<byte>, cnt: nat): Option<seq<Dirent>>
    decreases cnt
  {
    if cnt == 0 then Some([])
    else
      match Decode(bs)
      case None => None
      case Some(d) =>
        if d.reclen > |bs| then None
        else
          match Parse(bs[d.reclen..], cnt - 1)
          case None => None
          case Some(ds) => Some([d] + ds)
  }

  /** A record whose d_reclen is its own length. */
  predicate Sized(d: Dirent)
  {
    Representable(d) && d.reclen == |d.name| + NAME_OFFSET + 1
  }

  /** A reader takes a record of the right size and goes on right after it. */
  lemma ParseCons(d: Dirent, tail: seq<byte>, cnt: nat)
    requires Sized(d)
    ensures Parse(Encode(d) + tail, cnt + 1)
            == match Parse(tail, cnt) case None => None case Some(ds) => Some([d] + ds)
  {
    DecodeEncode(d, tail);
    assert (Encode(d) + tail)[d.reclen..] == tail;
  }

  /** Packed records read back as themselves, one by one. */
  lemma {:induction false} ParsePack(ds: seq<Dirent>, rest: seq<byte>)
    requires forall k | 0 <= k < |ds| :: Sized(ds[k])
    ensures Parse(Pack(ds) + rest, |ds|) == Some(ds)
  {
    if ds != [] {
      var tail := Pack(ds[1..]) + rest;
      assert Pack(ds) + rest == Encode(ds[0]) + tail;
      ParseCons(ds[0], tail, |ds| - 1);
      ParsePack(ds[1..], rest);
      assert [ds[0]] + ds[1..] == ds;
    }
  }

  // ---------------------------------------------------------------------
  // dirent_filler.

  /** d fits into room bytes, and its length into d_reclen. */
  predicate FitsIn(d: Dirent, room: nat)
  {
    d.reclen <= room && d.reclen < U16_LIMIT
  }

  /** dirent_filler's record length as written: strlen(name) + 20 computed
      into an unsigned short, so it wraps modulo 2^16. */
  function RecLenAsWritten(nameLen: nat): (len: nat)
    ensures len < U16_LIMIT
    ensures nameLen + NAME_OFFSET + 1 < U16_LIMIT ==> len == nameLen + NAME_OFFSET + 1
  {
    (nameLen + NAME_OFFSET + 1) % U16_LIMIT
  }

  /** dirent_filler's space check as written: only the wrapped length is
      compared with the end of the buffer. */
  predicate AcceptsAsWritten(p: nat, end: nat, nameLen: nat)
  {
    p + RecLenAsWritten(nameLen) <= end
  }

  /** A 65516-byte name wraps the length to 0: the check as written accepts
      its record with no room left although the record is 65536 bytes long,
      and dirent_filler returns 0. The corrected check refuses it. */
  lemma OverrunAsWritten(name: CString)
    requires |name| == 65516
    ensures AcceptsAsWritten(0, 0, |name|) && RecLenAsWritten(|name|) == 0
    ensures |Encode(Dirent(0, 0, RecLenAsWritten(|name|), FS_REG, name))| == U16_LIMIT
    ensures !FitsIn(Dirent(0, 0, |name| + NAME_OFFSET + 1, FS_REG, name), 0)
  {
  }

  /** The buffer after is before with bytes stored from offset at, and
      nothing else changed. */
  ghost predicate Written(before: seq<byte>, after: seq<byte>, at: nat, bytes: seq<byte>)
  {
    |after| == |before| && at + |bytes| <= |before| && after == before[..at] + bytes + before[at + |bytes|..]
  }

  lemma WrittenThen(b0: seq<byte>, b1: seq<byte>, b2: seq<byte>, at: nat, x: seq<byte>, y: seq<byte>)
    requires Written(b0, b1, at, x) && Written(b1, b2, at + |x|, y)
    ensures Written(b0, b2, at, x + y)
  {
    assert b1[..at + |x|] == b0[..at] + x;
    assert b1[at + |x| + |y|..] == b0[at + |x| + |y|..];
  }

  /** dirent_filler(&p, end, name, off, type, ino): stores the record of name
      at p and returns its length, with p moved past it; -EAGAIN, with
      nothing stored, when it does not fit before end. The check compares the
      full record length, not its 16-bit truncation (see OverrunAsWritten). */
  method DirentFiller(buf: array<byte>, p: nat, end: nat, name: CString, off: nat, dtype: byte, ino: nat)
    returns (ret: int, next: nat)
    requires p <= end <= buf.Length
    modifies buf
    ensures var d := Dirent(ino % U64_LIMIT, off % U64_LIMIT, |name| + NAME_OFFSET + 1, dtype, name);
            if FitsIn(d, end - p)
            then ret == d.reclen && next == p + d.reclen && Written(old(buf[..]), buf[..], p, Encode(d))
            else ret == -EAGAIN && next == p && buf[..] == old(buf[..])
  {
    var len := |name| + NAME_OFFSET + 1;
    if p + len > end || len >= U16_LIMIT {
      return -EAGAIN, p;
    }
    var rec := Encode(Dirent(ino % U64_LIMIT, off % U64_LIMIT, len, dtype, name));
    for k := 0 to len
      invariant forall i | 0 <= i < buf.Length :: buf[i] == (if p <= i < p + k then rec[i - p] else old(buf[i]))
    {
      buf[p + k] := rec[k];
    }
    assert buf[..] == old(buf[..p]) + rec + old(buf[p + len..]);
    return len, p + len;
  }

  // ---------------------------------------------------------------------
  // tfs_scan.

  /** The dentries of the first n buckets in the order for_each_in_htable
      visits them: bucket after bucket, each list from its head. */
  function Visited(t: seq<seq<Dentry>>, n: nat): seq<Dentry>
    requires n <= |t|
  {
    if n == 0 then [] else Visited(t, n - 1) + t[n - 1]
  }

  /** All the dentries of a table, in visiting order. */
  function Entries(t: seq<seq<Dentry>>): seq<Dentry>
  {
    Visited(t, |t|)
  }

  /** Every dentry a well-formed table lists names an existing inode. */
  lemma {:induction false} VisitedInodes(keys: set<nat>, t: seq<seq<Dentry>>, n: nat)
    requires TableWf(keys, t) && n <= |t|
    ensures forall k | 0 <= k < |Visited(t, n)| :: Visited(t, n)[k].inode in keys
    decreases n
  {
    if n > 0 {
      VisitedInodes(keys, t, n - 1);
      var v := Visited(t, n - 1);
      forall k | 0 <= k < |Visited(t, n)|
        ensures Visited(t, n)[k].inode in keys
      {
        if k >= |v| {
          assert Visited(t, n)[k] == t[n - 1][k - |v|];
          DentryIn(keys, t, n - 1, t[n - 1][k - |v|]);
        }
      }
    }
  }

  function TypeCode(k: Kind): byte
  {
    if k == Dir then FS_DIR else FS_REG
  }

  /** The record tfs_scan asks for entry number c: d_ino is filled with the
      inode's size, d_off with c, d_type with the inode's type. */
  function RecordOf(fs: Fs, e: Dentry, c: nat): (d: Dirent)
    ensures d.ino < U64_LIMIT && d.off < U64_LIMIT && d.reclen == |d.name| + NAME_OFFSET + 1
  {
    var size := if e.inode in fs.inodes then fs.inodes[e.inode].size else 0;
    var kind := if e.inode in fs.inodes then fs.inodes[e.inode].kind else Reg;
    var name := CStr(e.name.str);
    Dirent(size % U64_LIMIT, c % U64_LIMIT, |name| + NAME_OFFSET + 1, TypeCode(kind), name)
  }

  lemma RecordOfIn(fs: Fs, e: Dentry, c: nat)
    requires e.inode in fs.inodes
    ensures var node := fs.inodes[e.inode];
            var name := CStr(e.name.str);
            RecordOf(fs, e, c) == Dirent(node.size % U64_LIMIT, c % U64_LIMIT, |name| + NAME_OFFSET + 1, TypeCode(node.kind), name)
  {
  }

  /** The records of entries es from number c on, record j being that of
      entry c + j. */
  function Records(fs: Fs, es: seq<Dentry>, c: nat): (ds: seq<Dirent>)
    ensures |ds| == if c <= |es| then |es| - c else 0
  {
    seq(if c <= |es| then |es| - c else 0, j requires 0 <= j < |es| - c => RecordOf(fs, es[c + j], c + j))
  }

  /** Record j is the record of entry j, numbered c + j. */
  lemma RecordsIndex(fs: Fs, es: seq<Dentry>, c: nat, j: nat)
    requires c + j < |es|
    ensures Records(fs, es, c)[j] == RecordOf(fs, es[c + j], c + j)
  {
  }

  /** How many of the records, taken in order, dirent_filler places one
      after another into room bytes: it stops at the first that does not fit. */
  function Fit(ds: seq<Dirent>, room: nat): (k: nat)
    ensures k <= |ds|
  {
    if ds == [] || !FitsIn(ds[0], room) then 0 else 1 + Fit(ds[1..], room - ds[0].reclen)
  }

  /** The records that Fit places take at most room bytes, each is
      representable with d_reclen its length, and the next one, if any, does
      not fit in what is left. */
  lemma {:induction false} FitSpec(ds: seq<Dirent>, room: nat)
    requires forall k | 0 <= k < |ds| :: ds[k].reclen == |ds[k].name| + NAME_OFFSET + 1 && ds[k].ino < U64_LIMIT && ds[k].off < U64_LIMIT
    ensures var k := Fit(ds, room);
            && |Pack(ds[..k])| <= room
            && (forall j | 0 <= j < k :: Sized(ds[j]))
            && (k < |ds| ==> !FitsIn(ds[k], room - |Pack(ds[..k])|))
  {
    if ds != [] && FitsIn(ds[0], room) {
      FitSpec(ds[1..], room - ds[0].reclen);
      var k := Fit(ds, room);
      assert ds[..k][1..] == ds[1..][..k - 1];
      assert ds[..k][0] == ds[0];
      assert forall j | 1 <= j < k :: ds[j] == ds[1..][j - 1];
      if k < |ds| {
        assert ds[k] == ds[1..][k - 1];
      }
    }
  }

  /** The greedy count over the records from number w on. */
  function FitAfter(ds: seq<Dirent>, w: nat, room: nat): (k: nat)
    requires w <= |ds|
    ensures w + k <= |ds|
    decreases |ds| - w
  {
    if w == |ds| || !FitsIn(ds[w], room) then 0 else 1 + FitAfter(ds, w + 1, room - ds[w].reclen)
  }

  lemma {:induction false} FitAfterSuffix(ds: seq<Dirent>, w: nat, room: nat)
    requires w <= |ds|
    ensures FitAfter(ds, w, room) == Fit(ds[w..], room)
    decreases |ds| - w
  {
    if w < |ds| && FitsIn(ds[w], room) {
      FitAfterSuffix(ds, w + 1, room - ds[w].reclen);
      assert ds[w..][1..] == ds[w + 1..];
    }
  }

  /** What a reader finds in the buffer after tfs_scan: the records it
      placed, read back one after another by d_reclen. */
  lemma ScanParses(fs: Fs, es: seq<Dentry>, start: nat, room: nat, rest: seq<byte>)
    ensures var ds := Records(fs, es, start);
            var k := Fit(ds, room);
            Parse(Pack(ds[..k]) + rest, k) == Some(ds[..k])
            && forall j | 0 <= j < k :: ds[j].name == CStr(es[start + j].name.str) && ds[j].off == (start + j) % U64_LIMIT
  {
    var ds := Records(fs, es, start);
    forall j | 0 <= j < |ds|
      ensures ds[j] == RecordOf(fs, es[start + j], start + j)
    {
      RecordsIndex(fs, es, start, j);
    }
    FitSpec(ds, room);
    ParsePack(ds[..Fit(ds, room)], rest);
  }

  /** The first n records packed, built record by record. */
  function Packed(ds: seq<Dirent>, n: nat): seq<byte>
    requires n <= |ds|
  {
    if n == 0 then [] else Packed(ds, n - 1) + Encode(ds[n - 1])
  }

  lemma {:induction false} PackedIsPack(ds: seq<Dirent>, n: nat)
    requires n <= |ds|
    ensures Packed(ds, n) == Pack(ds[..n])
  {
    if n == 0 {
      assert ds[..0] == [];
    } else {
      PackedIsPack(ds, n - 1);
      assert ds[..n] == ds[..n - 1] + [ds[n - 1]];
      PackSnoc(ds[..n - 1], ds[n - 1]);
    }
  }

  /** The bookkeeping of tfs_scan: w records placed from p0 up to p, and
      the greedy count over all records is w plus the count from there. */
  ghost predicate Placed(b0: seq<byte>, cur: seq<byte>, ds: seq<Dirent>, w: nat, p0: nat, p: nat, end: nat)
  {
    && w <= |ds| && p0 <= p <= end
    && Written(b0, cur, p0, Packed(ds, w)) && p == p0 + |Packed(ds, w)|
    && FitAfter(ds, 0, end - p0) == w + FitAfter(ds, w, end - p)
  }

  lemma PlacedStart(b0: seq<byte>, ds: seq<Dirent>, p0: nat, end: nat)
    requires p0 <= end <= |b0|
    ensures Placed(b0, b0, ds, 0, p0, p0, end)
  {
    assert b0[..p0] + [] + b0[p0..] == b0;
  }

  /** One more record placed by dirent_filler. */
  lemma PlacedStep(b0: seq<byte>, cur: seq<byte>, after: seq<byte>, ds: seq<Dirent>, w: nat, p0: nat, p: nat, next: nat, end: nat)
    requires Placed(b0, cur, ds, w, p0, p, end) && w < |ds|
    requires ds[w].reclen == |ds[w].name| + NAME_OFFSET + 1 && next == p + ds[w].reclen
    requires FitsIn(ds[w], end - p) && Written(cur, after, p, Encode(ds[w]))
    ensures Placed(b0, after, ds, w + 1, p0, next, end)
  {
    WrittenThen(b0, cur, after, p0, Packed(ds, w), Encode(ds[w]));
  }

  /** Once the count is known, the bytes placed are the packed prefix. */
  lemma PlacedDone(b0: seq<byte>, cur: seq<byte>, ds: seq<Dirent>, w: nat, p0: nat, p: nat, end: nat)
    requires Placed(b0, cur, ds, w, p0, p, end)
    ensures Written(b0, cur, p0, Pack(ds[..w]))
  {
    PackedIsPack(ds, w);
  }

  /** The record that does not fit ends the count. */
  lemma PlacedStop(b0: seq<byte>, cur: seq<byte>, ds: seq<Dirent>, w: nat, p0: nat, p: nat, end: nat)
    requires Placed(b0, cur, ds, w, p0, p, end) && w < |ds| && !FitsIn(ds[w], end - p)
    ensures Fit(ds, end - p0) == w
  {
    FitAfterSuffix(ds, 0, end - p0);
    assert ds[0..] == ds;
  }

  /** When the scan stops, for want of room or of records, w is the count
      and the bytes placed are the packed prefix. */
  lemma PlacedEnd(b0: seq<byte>, cur: seq<byte>, ds: seq<Dirent>, w: nat, p0: nat, p: nat, end: nat)
    requires Placed(b0, cur, ds, w, p0, p, end) && (w == |ds| || Fit(ds, end - p0) == w)
    ensures Fit(ds, end - p0) == w && Written(b0, cur, p0, Pack(ds[..w]))
  {
    FitAfterSuffix(ds, 0, end - p0);
    assert ds[0..] == ds;
    PlacedDone(b0, cur, ds, w, p0, p, end);
  }

  /** What tfs_scan's loop relies on: the entries name existing inodes and
      ds holds their records numbered from start. */
  ghost predicate Scannable(fs: FileSystem, fs0: Fs, es: seq<Dentry>, start: nat, ds: seq<Dirent>)
    reads fs
  {
    && fs0.inodes == fs.inodes
    && (forall k | 0 <= k < |es| :: es[k].inode in fs.inodes)
    && ds == Records(fs0, es, start)
  }

  /** One dirent_filler call of tfs_scan, for entry cnt: the record either
      is placed after the others or ends the count. */
  method Place(fs: FileSystem, es: seq<Dentry>, start: nat, cnt: nat, buf: array<byte>, p: nat, end: nat,
               ghost fs0: Fs, ghost ds: seq<Dirent>, ghost b0: seq<byte>, ghost w: nat, ghost p0: nat)
    returns (r: int, next: nat)
    requires Scannable(fs, fs0, es, start, ds) && cnt == start + w && cnt < |es|
    requires Placed(b0, buf[..], ds, w, p0, p, end) && end <= buf.Length
    modifies buf
    ensures r <= 0 ==> buf[..] == old(buf[..]) && Fit(ds, end - p0) == w
    ensures r > 0 ==> Placed(b0, buf[..], ds, w + 1, p0, next, end)
  {
    ghost var before := buf[..];
    var e := es[cnt];
    var node := fs.inodes[e.inode];
    var name := CStr(e.name.str);
    RecordsIndex(fs0, es, start, w);
    RecordOfIn(fs0, e, cnt);
    r, next := DirentFiller(buf, p, end, name, cnt, TypeCode(node.kind), node.size);
    if r <= 0 {
      PlacedStop(b0, before, ds, w, p0, p, end);
    } else {
      PlacedStep(b0, before, buf[..], ds, w, p0, p, next, end);
    }
  }

  /** The loop of tfs_scan over the entries es in visiting order: the value
      is the number of the entry that did not fit or, when all did, the
      number of entries. */
  method Fill(fs: FileSystem, es: seq<Dentry>, start: nat, buf: array<byte>, p0: nat, end: nat,
              ghost fs0: Fs, ghost ds: seq<Dirent>) returns (cnt: nat)
    requires Scannable(fs, fs0, es, start, ds) && p0 <= end <= buf.Length
    modifies buf
    ensures cnt == if start <= |es| then start + Fit(ds, end - p0) else |es|
    ensures Written(old(buf[..]), buf[..], p0, Pack(ds[..Fit(ds, end - p0)]))
  {
    ghost var w: nat := 0;
    cnt := 0;
    var p := p0;
    var stop := false;
    PlacedStart(buf[..], ds, p0, end);
    while cnt < |es| && !stop
      invariant cnt <= |es|
      invariant w == (if start <= cnt then cnt - start else 0)
      invariant Placed(old(buf[..]), buf[..], ds, w, p0, p, end)
      invariant stop ==> start <= cnt && Fit(ds, end - p0) == w
      decreases |es| - cnt, if stop then 0 else 1
    {
      if cnt >= start {
        var r, next := Place(fs, es, start, cnt, buf, p, end, fs0, ds, old(buf[..]), w, p0);
        if r <= 0 {
          stop := true;
        } else {
          p, w, cnt := next, w + 1, cnt + 1;
        }
      } else {
        cnt := cnt + 1;
      }
    }
    PlacedEnd(old(buf[..]), buf[..], ds, w, p0, p, end);
  }

  /** tfs_scan(dir, start, buf, end): the records of the directory's entries
      from number start on are packed from p0 while they fit before end;
      the value is cnt - start as a 32-bit int, where cnt is the number of
      the entry that did not fit or, when all did, the number of entries
      (so it is negative when start is past the last entry). */
  method Scan(fs: FileSystem, dir: nat, start: nat, buf: array<byte>, p0: nat, end: nat) returns (ret: int)
    requires fs.Valid() && dir in fs.inodes && start < 0x1_0000_0000
    requires p0 <= end <= buf.Length
    modifies buf
    ensures var es := Entries(fs.inodes[dir].table);
            var ds := Records(fs.State(), es, start);
            var k := Fit(ds, end - p0);
            var cnt := if start <= |es| then start + k else |es|;
            Written(old(buf[..]), buf[..], p0, Pack(ds[..k])) && ret == ToInt32((cnt - start) % U64_LIMIT)
  {
    var es := Entries(fs.inodes[dir].table);
    VisitedInodes(fs.inodes.Keys, fs.inodes[dir].table, |fs.inodes[dir].table|);
    var cnt := Fill(fs, es, start, buf, p0, end, fs.State(), Records(fs.State(), es, start));
    ret := ToInt32((cnt - start) % U64_LIMIT);
  }
}
