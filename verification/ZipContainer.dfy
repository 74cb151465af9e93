/** The check of a ZIP file's end record and central directory before anything is extracted. */
module ZipContainer {
  import opened Common
  import EntryNames
  import Utf8

  const TAIL := 65557
  const ENTRY_LIMIT := 50000
  const DIRECTORY_LIMIT := 16 * 1024 * 1024

  const END_MARK: seq<byte> := [0x50, 0x4B, 5, 6]
  const RECORD_MARK: seq<byte> := [0x50, 0x4B, 1, 2]

  // The end record (APPNOTE, section 4.3.16).

  /** An end record at p whose comment reaches the end of the file. */
  ghost predicate EndRecordAt(f: seq<byte>, p: nat) {
    p + 22 <= |f| && f[p..p + 4] == END_MARK && p + 22 + LittleEndian16(f, p + 20) == |f|
  }

  ghost predicate LastEndRecord(f: seq<byte>, p: nat) {
    EndRecordAt(f, p) && forall q :: p < q <= |f| ==> !EndRecordAt(f, q)
  }

  /** Looking back through the last 65,557 bytes finds the last end record whenever the file has one at all. */
  method FindEnd(f: seq<byte>) returns (found: bool, at: nat)
    ensures found <==> exists p :: EndRecordAt(f, p)
    ensures found ==> LastEndRecord(f, at)
  {
    var skipped := if |f| > TAIL then |f| - TAIL else 0;
    var tail := f[skipped..];
    var end: int := |tail| - 22;
    while end >= 0
      invariant -1 <= end <= |tail| - 22 || (end == |tail| - 22 && end < 0)
      invariant forall q :: 0 <= q && skipped + end < q <= |f| ==> !EndRecordAt(f, q)
    {
      assert tail[end..end + 4] == f[skipped + end..][..4] == f[skipped + end..skipped + end + 4];
      if tail[end..end + 4] == END_MARK && end + 22 + LittleEndian16(tail, end + 20) == |tail| {
        assert EndRecordAt(f, skipped + end);
        return true, skipped + end;
      }
      end := end - 1;
    }
    found, at := false, 0;
  }

  // The central directory (APPNOTE, section 4.3.12).

  ghost function RecordSize(h: seq<byte>): nat
    requires |h| >= 46
  {
    46 + LittleEndian16(h, 28) + LittleEndian16(h, 30) + LittleEndian16(h, 32)
  }

  /** The file type bits of a Unix mode; 0 when the archiver stored none. */
  ghost function FileType(h: seq<byte>): nat
    requires |h| >= 46
  {
    LittleEndian32(h, 38) / 0x1000_0000
  }

  const DIRECTORY_TYPE := 4
  const REGULAR_TYPE := 8

  /** Neither a link nor a device, not encrypted, on this disk, stored or deflated. */
  ghost predicate Plain(h: seq<byte>)
    requires |h| >= 46
  {
    && (FileType(h) == 0 || FileType(h) == DIRECTORY_TYPE || FileType(h) == REGULAR_TYPE)
    && LittleEndian16(h, 8) % 2 == 0 && LittleEndian16(h, 34) == 0
    && (LittleEndian16(h, 10) == 0 || LittleEndian16(h, 10) == 8)
  }

  predicate SafeName(name: seq<byte>) {
    0 !in name && EntryNames.SafeEntry(Utf8.FromUtf8(name))
  }

  /** A name is safe exactly if it has no zero byte and, read as UTF-8, is made of safe parts. */
  lemma SafeNameExactly(name: seq<byte>)
    ensures SafeName(name) <==> 0 !in name && exists parts :: EntryNames.MadeOf(Utf8.FromUtf8(name), parts)
  {
    EntryNames.SafeEntryExactly(Utf8.FromUtf8(name));
  }

  /** Whether a whole record starts here. */
  ghost predicate Starts(h: seq<byte>) {
    |h| >= 46 && h[..4] == RECORD_MARK && RecordSize(h) <= |h|
  }

  /** Exactly one record. */
  ghost predicate Record(r: seq<byte>) {
    Starts(r) && RecordSize(r) == |r|
  }

  /** The record that starts here is one the reader supports, and its name stays inside the destination. */
  ghost predicate Supported(h: seq<byte>, safe: seq<byte> -> bool)
    requires Starts(h)
  {
    Plain(h) && safe(h[46..46 + LittleEndian16(h, 28)])
  }

  /** A record depends on no byte behind it. */
  lemma RecordAlone(h: seq<byte>, n: nat)
    requires |h| >= 46 && 46 <= n <= |h|
    ensures RecordSize(h[..n]) == RecordSize(h) && h[..n][..4] == h[..4] && (Plain(h[..n]) <==> Plain(h))
  {
    var r := h[..n];
    assert forall k: nat {:trigger LittleEndian16(r, k)} :: k + 2 <= n ==> LittleEndian16(r, k) == LittleEndian16(h, k);
    assert FileType(r) == FileType(h);
  }

  lemma SupportedAlone(h: seq<byte>, safe: seq<byte> -> bool)
    requires Starts(h)
    ensures var r := h[..RecordSize(h)]; Record(r) && (Supported(r, safe) <==> Supported(h, safe))
  {
    var r := h[..RecordSize(h)];
    RecordAlone(h, RecordSize(h));
    var end := 46 + LittleEndian16(h, 28);
    assert LittleEndian16(r, 28) == LittleEndian16(h, 28) && r[46..end] == h[46..end];
  }

  ghost predicate AllSupported(records: seq<seq<byte>>, safe: seq<byte> -> bool) {
    records == [] || (Record(records[0]) && Supported(records[0], safe) && AllSupported(records[1..], safe))
  }

  /** The bytes are these records, one after another, with no gap and nothing left over. */
  ghost predicate Tiles(records: seq<seq<byte>>, central: seq<byte>, safe: seq<byte> -> bool) {
    Concat(records) == central && AllSupported(records, safe)
  }

  lemma {:induction false} Extended(done: seq<seq<byte>>, r: seq<byte>, safe: seq<byte> -> bool)
    requires AllSupported(done, safe) && Record(r) && Supported(r, safe)
    ensures AllSupported(done + [r], safe) && Concat(done + [r]) == Concat(done) + r
  {
    if done == [] {
      assert (done + [r])[1..] == [];
    } else {
      Extended(done[1..], r, safe);
      assert (done + [r])[1..] == done[1..] + [r];
    }
  }

  lemma ExtendedBy(done: seq<seq<byte>>, h: seq<byte>, safe: seq<byte> -> bool)
    requires AllSupported(done, safe) && NextSupported(h, safe)
    ensures RecordSize(h) <= |h|
    ensures var r := h[..RecordSize(h)]; AllSupported(done + [r], safe) && Concat(done + [r]) == Concat(done) + r
  {
    SupportedAlone(h, safe);
    Extended(done, h[..RecordSize(h)], safe);
  }

  /** Of two records that begin the same bytes, each is the other. */
  lemma SameRecord(r: seq<byte>, s: seq<byte>, h: seq<byte>)
    requires Record(r) && Record(s) && r <= h && s <= h
    ensures r == s
  {
    RecordAlone(h, |r|);
    RecordAlone(h, |s|);
    assert h[..|r|] == r && h[..|s|] == s;
  }

  /** Records read from the front of a tiling are the front of the tiling. */
  lemma {:induction false} ReadInOrder(done: seq<seq<byte>>, rest: seq<byte>, records: seq<seq<byte>>,
                                       safe: seq<byte> -> bool)
    requires AllSupported(done, safe) && Tiles(records, Concat(done) + rest, safe)
    ensures done <= records && Tiles(records[|done|..], rest, safe)
  {
    if done == [] {
      assert Concat(done) + rest == rest && records[0..] == records;
    } else {
      var whole := Concat(done) + rest;
      var behind := Concat(done[1..]) + rest;
      assert whole == done[0] + behind;
      assert records != [];
      SameRecord(done[0], records[0], whole);
      assert behind == whole[|done[0]|..] == Concat(records[1..]);
      ReadInOrder(done[1..], rest, records[1..], safe);
      assert records[|done|..] == records[1..][|done| - 1..];
    }
  }

  /** There is at most one tiling. */
  lemma TilingUnique(central: seq<byte>, a: seq<seq<byte>>, b: seq<seq<byte>>, safe: seq<byte> -> bool)
    requires Tiles(a, central, safe) && Tiles(b, central, safe)
    ensures a == b
  {
    assert central + [] == central;
    ReadInOrder(a, [], b, safe);
    assert b[|a|..] == [];
  }

  datatype Verdict = Accepted | Refused | Cancelled

  /** The directory is the expected number of whole records, all of them supported. */
  ghost predicate Complete(central: seq<byte>, expected: nat, safe: seq<byte> -> bool) {
    exists records :: Tiles(records, central, safe) && |records| == expected
  }

  /** The tests on the next record, given the rest of the directory from its start. */
  method Inspect(h: seq<byte>, safe: seq<byte> -> bool) returns (ok: bool, length: nat)
    ensures ok <==> NextSupported(h, safe)
    ensures Starts(h) ==> length == RecordSize(h)
  {
    length := 0;
    if |h| < 46 || h[..4] != RECORD_MARK { return false, 0; }
    var nameSize := LittleEndian16(h, 28);
    length := 46 + nameSize + LittleEndian16(h, 30) + LittleEndian16(h, 32);
    var fileType := LittleEndian32(h, 38) / 0x1000_0000;
    var packing := LittleEndian16(h, 10);
    if length > |h| { return false, length; }
    SupportedAlone(h, safe);
    if (fileType != 0 && fileType != DIRECTORY_TYPE && fileType != REGULAR_TYPE)
       || LittleEndian16(h, 8) % 2 != 0 || LittleEndian16(h, 34) != 0 || (packing != 0 && packing != 8) {
      return false, length;
    }
    var name := h[46..46 + nameSize];
    ok := safe(name);
  }

  /** A directory whose next record cannot be used has no tiling. */
  lemma Stuck(done: seq<seq<byte>>, h: seq<byte>, expected: nat, safe: seq<byte> -> bool)
    requires AllSupported(done, safe) && h != []
    requires !NextSupported(h, safe)
    ensures !Complete(Concat(done) + h, expected, safe)
  {
    if records :| Tiles(records, Concat(done) + h, safe) {
      ReadInOrder(done, h, records, safe);
      var r := records[|done|];
      assert records[|done|..][0] == r && r <= h;
      RecordAlone(h, |r|);
    }
  }

  /** Too many records already: no tiling has the expected number. */
  lemma TooMany(done: seq<seq<byte>>, h: seq<byte>, expected: nat, safe: seq<byte> -> bool)
    requires AllSupported(done, safe) && |done| > expected
    ensures !Complete(Concat(done) + h, expected, safe)
  {
    if records :| Tiles(records, Concat(done) + h, safe) && |records| == expected {
      ReadInOrder(done, h, records, safe);
    }
  }

  lemma AllRead(done: seq<seq<byte>>, expected: nat, safe: seq<byte> -> bool)
    requires AllSupported(done, safe)
    ensures Complete(Concat(done), expected, safe) <==> |done| == expected
  {
    assert Tiles(done, Concat(done), safe);
    if records :| Tiles(records, Concat(done), safe) && |records| == expected {
      TilingUnique(Concat(done), done, records, safe);
    }
  }

  /** Some records, and then more bytes: the walk comes by here, unless it stops before. */
  ghost predicate Reached(central: seq<byte>, k: nat, safe: seq<byte> -> bool) {
    exists front :: |front| == k && AllSupported(front, safe) && Concat(front) < central
  }

  /** The walk comes by a record before which the user has cancelled. */
  ghost predicate Stopped(central: seq<byte>, safe: seq<byte> -> bool, cancel: set<nat>) {
    exists k :: k in cancel && k <= ENTRY_LIMIT && Reached(central, k, safe)
  }

  lemma Shifted(r: seq<byte>, a: seq<byte>, b: seq<byte>)
    requires r + a <= r + b
    ensures a <= b
  {
    assert a == (r + a)[|r|..] && b == (r + b)[|r|..] && (r + a) == (r + b)[..|r + a|];
  }

  /** Records in front of the same bytes are the records that were read, or begin with them and the next one. */
  lemma {:induction false} InStep(done: seq<seq<byte>>, h: seq<byte>, front: seq<seq<byte>>, safe: seq<byte> -> bool)
    requires AllSupported(done, safe) && AllSupported(front, safe) && Concat(front) <= Concat(done) + h
    ensures front <= done || (done < front && front[|done|] <= h && AllSupported([front[|done|]], safe))
  {
    if done == [] {
      assert Concat(done) + h == h;
    } else if front != [] {
      var whole, behind := Concat(done) + h, Concat(done[1..]) + h;
      assert whole == done[0] + behind;
      SameRecord(done[0], front[0], whole);
      Shifted(front[0], Concat(front[1..]), behind);
      InStep(done[1..], h, front[1..], safe);
      assert done == [done[0]] + done[1..] && front == [front[0]] + front[1..];
    }
  }

  /** The records read are all there is in front: where the walk has not been stopped it never will be. */
  lemma NotStopped(done: seq<seq<byte>>, h: seq<byte>, safe: seq<byte> -> bool, cancel: set<nat>)
    requires AllSupported(done, safe) && NoneBefore(cancel, |done|)
    requires h == [] || |done| > ENTRY_LIMIT || (|done| !in cancel && !NextSupported(h, safe))
    ensures !Stopped(Concat(done) + h, safe, cancel)
  {
    if k :| k in cancel && k <= ENTRY_LIMIT && Reached(Concat(done) + h, k, safe) {
      var front :| |front| == k && AllSupported(front, safe) && Concat(front) < Concat(done) + h;
      InStep(done, h, front, safe);
      if done < front {
        AloneSupported(front[|done|], h, safe);
      } else {
        assert front == done;
      }
    }
  }

  ghost predicate NoneBefore(cancel: set<nat>, n: nat) {
    forall k :: k in cancel ==> k >= n
  }

  lemma OneMore(cancel: set<nat>, n: nat)
    requires NoneBefore(cancel, n) && n !in cancel
    ensures NoneBefore(cancel, n + 1)
  {
  }

  lemma StoppedHere(central: seq<byte>, done: seq<seq<byte>>, pos: nat, safe: seq<byte> -> bool, cancel: set<nat>)
    requires pos < |central| && Concat(done) == central[..pos] && AllSupported(done, safe)
    requires |done| in cancel && |done| <= ENTRY_LIMIT
    ensures Stopped(central, safe, cancel)
  {
    assert Reached(central, |done|, safe);
  }

  ghost predicate NextSupported(h: seq<byte>, safe: seq<byte> -> bool) {
    Starts(h) && Supported(h[..RecordSize(h)], safe)
  }

  lemma AloneSupported(r: seq<byte>, h: seq<byte>, safe: seq<byte> -> bool)
    requires r <= h && AllSupported([r], safe)
    ensures h != [] && NextSupported(h, safe)
  {
    assert [r][0] == r && r == h[..|r|];
    RecordAlone(h, |r|);
  }

  /**
   The walk accepts exactly a complete directory, unless the user's wish to cancel is seen first: `cancel` holds
   the numbers of the records before which the flag is set.
   */
  method CheckDirectory(central: seq<byte>, expected: nat, safe: seq<byte> -> bool, cancel: set<nat>)
    returns (verdict: Verdict)
    requires expected <= ENTRY_LIMIT
    ensures verdict == Accepted ==> Complete(central, expected, safe)
    ensures verdict == Refused ==> !Complete(central, expected, safe)
    ensures verdict == Cancelled <==> Stopped(central, safe, cancel)
  {
    var pos, records := 0, 0;
    ghost var done: seq<seq<byte>> := [];
    while pos < |central|
      invariant 0 <= pos <= |central| && records == |done|
      invariant Concat(done) == central[..pos]
      invariant AllSupported(done, safe) && records <= ENTRY_LIMIT
      invariant NoneBefore(cancel, records)
    {
      if records in cancel {
        StoppedHere(central, done, pos, safe, cancel);
        return Cancelled;
      }
      var h := central[pos..];
      var ok, length := Inspect(h, safe);
      Cut(central, pos, if ok then length else 0);
      if !ok {
        Stuck(done, h, expected, safe);
        NotStopped(done, h, safe, cancel);
        return Refused;
      }
      ExtendedBy(done, h, safe);
      done := done + [h[..length]];
      OneMore(cancel, records);
      records := records + 1;
      if records > ENTRY_LIMIT {
        TooMany(done, central[pos + length..], expected, safe);
        NotStopped(done, central[pos + length..], safe, cancel);
        return Refused;
      }
      pos := pos + length;
    }
    AllRead(done, expected, safe);
    assert central[..pos] == central == Concat(done) + [];
    NotStopped(done, [], safe, cancel);
    verdict := if records == expected then Accepted else Refused;
  }

  lemma Cut(s: seq<byte>, at: nat, n: nat)
    requires at + n <= |s|
    ensures s[..at] + s[at..][..n] == s[..at + n]
    ensures s[..at] + s[at..] == s && s[..at + n] + s[at + n..] == s
  {
  }

  // The whole check.

  ghost function Directory(f: seq<byte>, p: nat): Option<seq<byte>>
    requires p + 22 <= |f|
  {
    var size, offset := LittleEndian32(f, p + 12), LittleEndian32(f, p + 16);
    if size <= DIRECTORY_LIMIT && offset + size <= |f| then Some(f[offset..offset + size]) else None
  }

  /** The last end record is at p, and these are the records of the directory it points to. */
  ghost predicate Describes(f: seq<byte>, p: nat, records: seq<seq<byte>>, safe: seq<byte> -> bool) {
    && LastEndRecord(f, p) && LittleEndian32(f, p + 4) == 0
    && LittleEndian16(f, p + 8) == LittleEndian16(f, p + 10) == |records| <= ENTRY_LIMIT
    && Directory(f, p).Some? && Tiles(records, Directory(f, p).value, safe)
  }

  lemma DescriptionUnique(f: seq<byte>, p: nat, r: seq<seq<byte>>, q: nat, s: seq<seq<byte>>, safe: seq<byte> -> bool)
    requires Describes(f, p, r, safe) && Describes(f, q, s, safe)
    ensures p == q && r == s
  {
    TilingUnique(Directory(f, p).value, r, s, safe);
  }

  /** Some end record and some number of records describe the file. */
  ghost predicate Described(f: seq<byte>, expected: nat, safe: seq<byte> -> bool) {
    exists p, records :: Describes(f, p, records, safe) && |records| == expected
  }

  /** The last end record points to a directory in which the walk comes by a record before which the user cancelled. */
  ghost predicate Interrupted(f: seq<byte>, safe: seq<byte> -> bool, cancel: set<nat>) {
    exists p :: LastEndRecord(f, p) && StoppedAt(f, p, safe, cancel)
  }

  ghost predicate StoppedAt(f: seq<byte>, p: nat, safe: seq<byte> -> bool, cancel: set<nat>)
    requires p + 22 <= |f|
  {
    && LittleEndian32(f, p + 4) == 0 && LittleEndian16(f, p + 8) == LittleEndian16(f, p + 10) <= ENTRY_LIMIT
    && Directory(f, p).Some? && Stopped(Directory(f, p).value, safe, cancel)
  }

  ghost predicate SaysEnd(f: seq<byte>, end: nat, expected: nat, safe: seq<byte> -> bool)
    requires LastEndRecord(f, end)
  {
    && LittleEndian32(f, end + 4) == 0
    && LittleEndian16(f, end + 8) == LittleEndian16(f, end + 10) == expected <= ENTRY_LIMIT
    && Directory(f, end).Some? && Complete(Directory(f, end).value, expected, safe)
  }

  /** What that says of the end record found, and of the directory it points to. */
  lemma DescriptionSays(f: seq<byte>, end: nat, expected: nat, safe: seq<byte> -> bool)
    requires LastEndRecord(f, end)
    ensures Described(f, expected, safe) <==> SaysEnd(f, end, expected, safe)
  {
    if p, records :| Describes(f, p, records, safe) && |records| == expected {
      assert p == end && Tiles(records, Directory(f, end).value, safe);
    }
    if SaysEnd(f, end, expected, safe) {
      var records :| Tiles(records, Directory(f, end).value, safe) && |records| == expected;
      assert Describes(f, end, records, safe);
    }
  }

  lemma NotDescribed(f: seq<byte>, safe: seq<byte> -> bool)
    requires forall p :: !EndRecordAt(f, p)
    ensures forall expected :: !Described(f, expected, safe)
  {
  }

  /** The directory is read and walked; more than the limit or a part beyond the file is refused. */
  method ReadDirectory(f: seq<byte>, end: nat, expected: nat, safe: seq<byte> -> bool, cancel: set<nat>)
    returns (verdict: Verdict)
    requires LastEndRecord(f, end) && expected <= ENTRY_LIMIT
    ensures verdict == Accepted ==> Directory(f, end).Some? && Complete(Directory(f, end).value, expected, safe)
    ensures verdict == Refused ==> !(Directory(f, end).Some? && Complete(Directory(f, end).value, expected, safe))
    ensures verdict == Cancelled <==> Directory(f, end).Some? && Stopped(Directory(f, end).value, safe, cancel)
  {
    var size, offset := LittleEndian32(f, end + 12), LittleEndian32(f, end + 16);
    if size > DIRECTORY_LIMIT || offset + size > |f| { return Refused; }
    verdict := CheckDirectory(f[offset..offset + size], expected, safe, cancel);
  }

  /**
   A file is accepted exactly when its last end record describes a complete directory; the number returned is
   how many entries extraction must then meet.
   */
  method CheckNames(f: seq<byte>, safe: seq<byte> -> bool, cancel: set<nat>) returns (verdict: Verdict, expected: nat)
    ensures verdict == Accepted ==> Described(f, expected, safe) && expected <= ENTRY_LIMIT
    ensures verdict == Refused ==> forall n :: !Described(f, n, safe)
    ensures verdict == Cancelled <==> Interrupted(f, safe, cancel)
  {
    var found, end := FindEnd(f);
    if !found {
      NotDescribed(f, safe);
      return Refused, 0;
    }
    forall n ensures Described(f, n, safe) <==> SaysEnd(f, end, n, safe) {
      DescriptionSays(f, end, n, safe);
    }
    if LittleEndian32(f, end + 4) != 0 { return Refused, 0; }
    expected := LittleEndian16(f, end + 10);
    if expected > ENTRY_LIMIT || expected != LittleEndian16(f, end + 8) { return Refused, 0; }
    verdict := ReadDirectory(f, end, expected, safe, cancel);
  }

  /** The check as unpacking makes it: names are read as UTF-8 and must stay inside the destination. */
  method Check(f: seq<byte>, cancel: set<nat>) returns (verdict: Verdict, expected: nat)
    ensures verdict == Accepted ==> Described(f, expected, SafeName) && expected <= ENTRY_LIMIT
    ensures verdict == Refused ==> forall n :: !Described(f, n, SafeName)
    ensures verdict == Cancelled <==> Interrupted(f, SafeName, cancel)
  {
    verdict, expected := CheckNames(f, SafeName, cancel);
  }

  // A writer, field by field (APPNOTE, sections 4.3.12 and 4.3.16), and that the check reads what it writes.

  /** Two bytes, low digit first. */
  ghost function Two(n: nat): seq<byte>
    requires n < 0x1_0000
  {
    [n % 0x100, n / 0x100]
  }

  /** Four bytes, low digit first. */
  ghost function Four(n: nat): seq<byte>
    requires n < 0x1_0000_0000
  {
    [n % 0x100, n / 0x100 % 0x100, n / 0x1_0000 % 0x100, n / 0x100_0000]
  }

  /**
   What a central record says. `versions`, `stamps`, `internal` and `place` are fields that the check passes over: the
   versions, the times, checksum and sizes, the internal attributes, and where the local header is.
   */
  datatype Header = Header(versions: seq<byte>, flags: nat, packing: nat, stamps: seq<byte>, disk: nat,
                           internal: seq<byte>, dos: nat, mode: nat, place: seq<byte>,
                           name: seq<byte>, extra: seq<byte>, comment: seq<byte>)

  ghost predicate Writable(h: Header) {
    && |h.versions| == 4 && |h.stamps| == 16 && |h.internal| == 2 && |h.place| == 4
    && h.flags < 0x1_0000 && h.packing < 0x1_0000 && h.disk < 0x1_0000 && h.dos < 0x1_0000 && h.mode < 0x1_0000
    && |h.name| < 0x1_0000 && |h.extra| < 0x1_0000 && |h.comment| < 0x1_0000
  }

  /** The fixed part of a record. */
  ghost function Fields(h: Header): (r: seq<byte>)
    requires Writable(h)
    ensures |r| == 46
  {
    Front(h) + Back(h)
  }

  ghost function Front(h: Header): (r: seq<byte>)
    requires Writable(h)
    ensures |r| == 28
  {
    [0x50, 0x4B, 1, 2] + h.versions + Two(h.flags) + Two(h.packing) + h.stamps
  }

  ghost function Back(h: Header): (r: seq<byte>)
    requires Writable(h)
    ensures |r| == 18
  {
    Two(|h.name|) + Two(|h.extra|) + Two(|h.comment|) + Two(h.disk) + h.internal + Two(h.dos) + Two(h.mode) + h.place
  }

  ghost function Written(h: Header): seq<byte>
    requires Writable(h)
  {
    Fields(h) + h.name + h.extra + h.comment
  }

  /** A plain file, a directory, or nothing said; not encrypted, on this disk, stored or deflated, with a safe name. */
  ghost predicate Ordinary(h: Header, safe: seq<byte> -> bool) {
    && h.mode / 0x1000 in {0, 4, 8} && h.flags % 2 == 0 && h.disk == 0 && h.packing in {0, 8} && safe(h.name)
  }

  lemma ReadTwo(b: seq<byte>, at: nat, n: nat)
    requires n < 0x1_0000 && at + 2 <= |b| && b[at..at + 2] == Two(n)
    ensures LittleEndian16(b, at) == n
  {
    assert b[at] == b[at..at + 2][0] && b[at + 1] == b[at..at + 2][1];
  }

  lemma Digits(n: nat)
    requires n < 0x1_0000_0000
    ensures n == n % 0x100 + n / 0x100 % 0x100 * 0x100 + n / 0x1_0000 % 0x100 * 0x1_0000 + n / 0x100_0000 * 0x100_0000
  {
    var a, b := n / 0x100, n / 0x1_0000;
    assert b == a / 0x100 && n / 0x100_0000 == b / 0x100;
  }

  lemma ReadFour(b: seq<byte>, at: nat, n: nat)
    requires n < 0x1_0000_0000 && at + 4 <= |b| && b[at..at + 4] == Four(n)
    ensures LittleEndian32(b, at) == n
  {
    var four := b[at..at + 4];
    assert b[at] == four[0] && b[at + 1] == four[1] && b[at + 2] == four[2] && b[at + 3] == four[3];
    Digits(n);
  }

  /** What the check reads of a record's fixed part. */
  lemma FieldsRead(h: Header, r: seq<byte>)
    requires Writable(h) && Fields(h) <= r
    ensures r[..4] == RECORD_MARK
    ensures LittleEndian16(r, 8) == h.flags && LittleEndian16(r, 10) == h.packing && LittleEndian16(r, 34) == h.disk
    ensures LittleEndian16(r, 28) == |h.name| && LittleEndian16(r, 30) == |h.extra|
    ensures LittleEndian16(r, 32) == |h.comment| && FileType(r) == h.mode / 0x1000
  {
    var f := Fields(h);
    assert forall i :: 0 <= i < 46 ==> r[i] == f[i];
    assert r[8..10] == Two(h.flags) && r[10..12] == Two(h.packing);
    assert r[28..30] == Two(|h.name|) && r[30..32] == Two(|h.extra|) && r[32..34] == Two(|h.comment|);
    assert r[34..36] == Two(h.disk) && r[38..42] == Two(h.dos) + Two(h.mode);
    ReadTwo(r, 8, h.flags);
    ReadTwo(r, 10, h.packing);
    ReadTwo(r, 28, |h.name|);
    ReadTwo(r, 30, |h.extra|);
    ReadTwo(r, 32, |h.comment|);
    ReadTwo(r, 34, h.disk);
    ModeRead(h.dos, h.mode, r);
  }

  lemma ModeRead(dos: nat, mode: nat, r: seq<byte>)
    requires dos < 0x1_0000 && mode < 0x1_0000 && |r| >= 46 && r[38..42] == Two(dos) + Two(mode)
    ensures FileType(r) == mode / 0x1000
  {
    var n := mode * 0x1_0000 + dos;
    LowHalf(dos, mode);
    HighHalf(dos, mode);
    assert r[38..42] == Four(n);
    ReadFour(r, 38, n);
  }

  lemma LowHalf(dos: nat, mode: nat)
    requires dos < 0x1_0000
    ensures var n := mode * 0x1_0000 + dos; n % 0x100 == dos % 0x100 && n / 0x100 % 0x100 == dos / 0x100
  {
    assert (mode * 0x1_0000 + dos) / 0x100 == mode * 0x100 + dos / 0x100;
  }

  lemma HighHalf(dos: nat, mode: nat)
    requires dos < 0x1_0000
    ensures var n := mode * 0x1_0000 + dos;
            n / 0x1_0000 == mode && n / 0x1_0000 % 0x100 == mode % 0x100 && n / 0x100_0000 == mode / 0x100
            && n / 0x1000_0000 == mode / 0x1000
  {
  }

  /** A written record is one record, and supported exactly if it is ordinary. */
  lemma RecordWritten(h: Header, safe: seq<byte> -> bool)
    requires Writable(h)
    ensures Record(Written(h)) && (Supported(Written(h), safe) <==> Ordinary(h, safe))
  {
    var r := Written(h);
    assert r == Fields(h) + (h.name + h.extra + h.comment);
    FieldsRead(h, r);
    assert r[46..46 + |h.name|] == h.name;
  }

  ghost function WrittenAll(hs: seq<Header>): (r: seq<seq<byte>>)
    requires forall h :: h in hs ==> Writable(h)
    ensures |r| == |hs|
  {
    if hs == [] then [] else [Written(hs[0])] + WrittenAll(hs[1..])
  }

  lemma {:induction false} WrittenSupported(hs: seq<Header>, safe: seq<byte> -> bool)
    requires forall h :: h in hs ==> Writable(h)
    ensures AllSupported(WrittenAll(hs), safe) <==> forall h :: h in hs ==> Ordinary(h, safe)
  {
    if hs != [] {
      RecordWritten(hs[0], safe);
      WrittenSupported(hs[1..], safe);
      assert WrittenAll(hs)[1..] == WrittenAll(hs[1..]);
      assert forall h :: h in hs <==> h == hs[0] || h in hs[1..];
    }
  }

  /** Written records are read as they were written. */
  lemma {:induction false} WrittenTiles(hs: seq<Header>, records: seq<seq<byte>>, safe: seq<byte> -> bool)
    requires (forall h :: h in hs ==> Writable(h)) && Tiles(records, Concat(WrittenAll(hs)), safe)
    ensures records == WrittenAll(hs)
  {
    var all := WrittenAll(hs);
    if hs == [] {
      if records != [] {
        assert false;
      }
    } else {
      var central := Concat(all);
      RecordWritten(hs[0], safe);
      assert all[1..] == WrittenAll(hs[1..]) && central == all[0] + Concat(all[1..]);
      assert records != [] && central == records[0] + Concat(records[1..]);
      SameRecord(records[0], all[0], central);
      assert Concat(records[1..]) == central[|all[0]|..] == Concat(all[1..]);
      WrittenTiles(hs[1..], records[1..], safe);
    }
  }

  /** Written records are a complete directory, of their own number, exactly if all are ordinary. */
  lemma CompleteWritten(hs: seq<Header>, n: nat, safe: seq<byte> -> bool)
    requires forall h :: h in hs ==> Writable(h)
    ensures Complete(Concat(WrittenAll(hs)), n, safe) <==> n == |hs| && forall h :: h in hs ==> Ordinary(h, safe)
  {
    var all := WrittenAll(hs);
    WrittenSupported(hs, safe);
    if records :| Tiles(records, Concat(all), safe) && |records| == n {
      WrittenTiles(hs, records, safe);
    }
    if AllSupported(all, safe) {
      assert Tiles(all, Concat(all), safe);
    }
  }

  /** An end record on the first disk. */
  ghost function EndOf(count: nat, size: nat, offset: nat, comment: seq<byte>): (r: seq<byte>)
    requires count < 0x1_0000 && size < 0x1_0000_0000 && offset < 0x1_0000_0000 && |comment| < 0x1_0000
    ensures |r| == 22 + |comment|
  {
    [0x50, 0x4B, 5, 6, 0, 0, 0, 0] + Two(count) + Two(count) + Four(size) + Four(offset) + Two(|comment|) + comment
  }

  /** Nothing behind p, in a comment say, looks like an end record too. */
  ghost predicate NoneBehind(f: seq<byte>, p: nat) {
    forall q :: p < q <= |f| ==> !EndRecordAt(f, q)
  }

  /** The end record of a file is at p, and there is none behind it. */
  ghost predicate EndsAt(f: seq<byte>, p: nat, count: nat, size: nat, offset: nat, comment: seq<byte>) {
    && count < 0x1_0000 && size < 0x1_0000_0000 && offset < 0x1_0000_0000 && |comment| < 0x1_0000
    && p <= |f| && f[p..] == EndOf(count, size, offset, comment) && NoneBehind(f, p)
  }

  lemma Behind(f: seq<byte>, p: nat, a: nat, b: nat)
    requires a <= b && p + b <= |f|
    ensures f[p + a..p + b] == f[p..][a..b]
  {
  }

  lemma EndFields(count: nat, size: nat, offset: nat, comment: seq<byte>)
    requires count < 0x1_0000 && size < 0x1_0000_0000 && offset < 0x1_0000_0000 && |comment| < 0x1_0000
    ensures var e := EndOf(count, size, offset, comment);
            && e[..4] == END_MARK && e[4..8] == Four(0) && e[8..10] == e[10..12] == Two(count)
            && e[12..16] == Four(size) && e[16..20] == Four(offset) && e[20..22] == Two(|comment|)
  {
  }

  /** What the check reads of such a file. */
  lemma EndRead(f: seq<byte>, p: nat, count: nat, size: nat, offset: nat, comment: seq<byte>)
    requires EndsAt(f, p, count, size, offset, comment)
    ensures LastEndRecord(f, p) && LittleEndian32(f, p + 4) == 0
    ensures LittleEndian16(f, p + 8) == LittleEndian16(f, p + 10) == count
    ensures LittleEndian32(f, p + 12) == size && LittleEndian32(f, p + 16) == offset
  {
    EndFields(count, size, offset, comment);
    assert f[p..p + 4] == f[p..][..4];
    Behind(f, p, 4, 8);
    Behind(f, p, 8, 10);
    Behind(f, p, 10, 12);
    Behind(f, p, 12, 16);
    Behind(f, p, 16, 20);
    Behind(f, p, 20, 22);
    ReadFour(f, p + 4, 0);
    ReadTwo(f, p + 8, count);
    ReadTwo(f, p + 10, count);
    ReadFour(f, p + 12, size);
    ReadFour(f, p + 16, offset);
    ReadTwo(f, p + 20, |comment|);
  }

  /** What can be written: with numbers that fit their fields. */
  ghost predicate AllWritable(front: seq<byte>, hs: seq<Header>, comment: seq<byte>) {
    && (forall h :: h in hs ==> Writable(h)) && |hs| < 0x1_0000 && |front| < 0x1_0000_0000
    && |Concat(WrittenAll(hs))| < 0x1_0000_0000 && |comment| < 0x1_0000
  }

  /** A file: anything, then a central directory, then its end record. */
  ghost function WrittenFile(front: seq<byte>, hs: seq<Header>, comment: seq<byte>): seq<byte>
    requires AllWritable(front, hs, comment)
  {
    var central := Concat(WrittenAll(hs));
    front + central + EndOf(|hs|, |central|, |front|, comment)
  }

  /** Without a comment nothing is behind the end record. */
  lemma NoComment(f: seq<byte>, p: nat)
    requires |f| == p + 22
    ensures NoneBehind(f, p)
  {
  }

  lemma EndSays(f: seq<byte>, p: nat, count: nat, size: nat, offset: nat, safe: seq<byte> -> bool, n: nat)
    requires LastEndRecord(f, p) && LittleEndian32(f, p + 4) == 0 && offset + size <= p
    requires LittleEndian16(f, p + 8) == LittleEndian16(f, p + 10) == count
    requires LittleEndian32(f, p + 12) == size && LittleEndian32(f, p + 16) == offset
    ensures Described(f, n, safe) <==>
              n == count <= 50_000 && size <= 16 * 1024 * 1024 && Complete(f[offset..offset + size], n, safe)
  {
    DescriptionSays(f, p, n, safe);
  }

  /** What the end record of a file says of it. */
  lemma EndDescribes(f: seq<byte>, p: nat, count: nat, size: nat, offset: nat, comment: seq<byte>,
                     safe: seq<byte> -> bool, n: nat)
    requires EndsAt(f, p, count, size, offset, comment) && offset + size <= p
    ensures Described(f, n, safe) <==>
              n == count <= 50_000 && size <= 16 * 1024 * 1024 && Complete(f[offset..offset + size], n, safe)
  {
    EndRead(f, p, count, size, offset, comment);
    EndSays(f, p, count, size, offset, safe, n);
  }

  lemma WrittenEnd(front: seq<byte>, hs: seq<Header>, comment: seq<byte>, safe: seq<byte> -> bool, n: nat)
    requires AllWritable(front, hs, comment)
    requires comment == [] || NoneBehind(WrittenFile(front, hs, comment), |front| + |Concat(WrittenAll(hs))|)
    ensures Described(WrittenFile(front, hs, comment), n, safe) <==>
              && n == |hs| <= 50_000 && |Concat(WrittenAll(hs))| <= 16 * 1024 * 1024
              && Complete(Concat(WrittenAll(hs)), n, safe)
  {
    var f, central := WrittenFile(front, hs, comment), Concat(WrittenAll(hs));
    var p := |front| + |central|;
    assert f[p..] == EndOf(|hs|, |central|, |front|, comment) && f[|front|..p] == central;
    if comment == [] {
      NoComment(f, p);
    }
    EndDescribes(f, p, |hs|, |central|, |front|, comment, safe, n);
  }

  /**
   A written file is described by its own number of entries and no other, and that exactly if the entries are
   ordinary, 50,000 at most, and their directory has 16 MiB at most.
   */
  lemma WrittenDescribed(front: seq<byte>, hs: seq<Header>, comment: seq<byte>, safe: seq<byte> -> bool, n: nat)
    requires AllWritable(front, hs, comment)
    requires comment == [] || NoneBehind(WrittenFile(front, hs, comment), |front| + |Concat(WrittenAll(hs))|)
    ensures Described(WrittenFile(front, hs, comment), n, safe) <==>
              && n == |hs| <= 50_000 && |Concat(WrittenAll(hs))| <= 16 * 1024 * 1024
              && forall h :: h in hs ==> Ordinary(h, safe)
  {
    WrittenEnd(front, hs, comment, safe, n);
    CompleteWritten(hs, n, safe);
  }

  /** The same of the check as unpacking makes it, if nobody cancels. */
  method CheckWritten(ghost front: seq<byte>, ghost hs: seq<Header>, ghost comment: seq<byte>, file: seq<byte>)
    returns (accepted: bool)
    requires AllWritable(front, hs, comment) && file == WrittenFile(front, hs, comment)
    requires comment == [] || NoneBehind(file, |front| + |Concat(WrittenAll(hs))|)
    ensures accepted <==>
              && |hs| <= 50_000 && |Concat(WrittenAll(hs))| <= 16 * 1024 * 1024
              && forall h :: h in hs ==> Ordinary(h, SafeName)
  {
    var verdict, expected := Check(file, {});
    forall n ensures Described(file, n, SafeName) <==>
                       && n == |hs| <= 50_000 && |Concat(WrittenAll(hs))| <= 16 * 1024 * 1024
                       && forall h :: h in hs ==> Ordinary(h, SafeName)
    {
      WrittenDescribed(front, hs, comment, SafeName, n);
    }
    assert Described(file, |hs|, SafeName) || verdict == Refused;
    accepted := verdict == Accepted;
  }

  // A file with one entry, byte by byte.

  /** The central record of a stored file "a" of no bytes, with these bytes for its Unix mode. */
  ghost function OneEntry(low: byte, high: byte): (r: seq<byte>)
    ensures |r| == 69
  {
    ONE_FRONT + OneBack(low, high) + [0x61] + ONE_END
  }

  const ONE_FRONT: seq<byte> :=
    [0x50, 0x4B, 1, 2, 20, 3, 20, 0, 0, 0, 0, 0, 0, 0, 0, 0, 0, 0, 0, 0, 0, 0, 0, 0, 0, 0, 0, 0]

  const ONE_END: seq<byte> := [0x50, 0x4B, 5, 6, 0, 0, 0, 0, 1, 0, 1, 0, 47, 0, 0, 0, 0, 0, 0, 0, 0, 0]

  ghost function OneBack(low: byte, high: byte): seq<byte> {
    [1, 0, 0, 0, 0, 0, 0, 0, 0, 0, 0, 0, low, high, 0, 0, 0, 0]
  }

  ghost function EmptyFile(mode: nat): Header {
    Header([20, 3, 20, 0], 0, 0, seq(16, i => 0), 0, [0, 0], 0, mode, [0, 0, 0, 0], [0x61], [], [])
  }

  lemma EmptyFileWritten(mode: nat)
    requires mode < 0x1_0000
    ensures Writable(EmptyFile(mode)) && |Written(EmptyFile(mode))| == 47
    ensures Written(EmptyFile(mode)) == OneEntry(mode % 0x100, mode / 0x100)[..47]
  {
    var h, low, high := EmptyFile(mode), mode % 0x100, mode / 0x100;
    FrontWritten(mode);
    BackWritten(mode);
    assert OneEntry(low, high)[..47] == ONE_FRONT + OneBack(low, high) + [0x61];
  }

  lemma FrontWritten(mode: nat)
    requires mode < 0x1_0000
    ensures Front(EmptyFile(mode)) == ONE_FRONT
  {
  }

  lemma BackWritten(mode: nat)
    requires mode < 0x1_0000
    ensures Back(EmptyFile(mode)) == OneBack(mode % 0x100, mode / 0x100)
  {
  }

  /** As a regular file it is described; as a link, which the bytes FF A1 make it, it is not. */
  lemma OneEntryDescribed()
    ensures Described(OneEntry(0xA4, 0x81), 1, SafeName)
    ensures forall n :: !Described(OneEntry(0xFF, 0xA1), n, SafeName)
  {
    LetterIsSafe();
    OneEntryMode(0x81A4, 1);
    assert 0x81A4 / 0x100 == 0x81 && 0xA1FF / 0x100 == 0xA1;
    forall n ensures !Described(OneEntry(0xFF, 0xA1), n, SafeName) {
      OneEntryMode(0xA1FF, n);
    }
  }

  lemma EndWritten()
    ensures EndOf(1, 47, 0, []) == ONE_END
  {
  }

  lemma OneWritten(mode: nat)
    requires mode < 0x1_0000
    ensures var h, one := EmptyFile(mode), OneEntry(mode % 0x100, mode / 0x100);
            && AllWritable([], [h], []) && |Concat(WrittenAll([h]))| == 47 && WrittenFile([], [h], []) == one
  {
    var h, one := EmptyFile(mode), OneEntry(mode % 0x100, mode / 0x100);
    EmptyFileWritten(mode);
    JustOne(h);
    EndWritten();
    assert one[47..] == ONE_END;
    assert one == one[..47] + one[47..];
  }

  lemma JustOne(h: Header)
    requires Writable(h) && |Written(h)| == 47
    ensures AllWritable([], [h], []) && Concat(WrittenAll([h])) == Written(h)
    ensures WrittenFile([], [h], []) == Written(h) + EndOf(1, 47, 0, [])
  {
    assert WrittenAll([h]) == [Written(h)] && Concat([Written(h)]) == Written(h);
  }

  lemma OneOrdinary(mode: nat)
    requires mode < 0x1_0000 && SafeName([0x61])
    ensures Ordinary(EmptyFile(mode), SafeName) <==> mode / 0x1000 in {0, 4, 8}
  {
  }

  lemma OneEntryMode(mode: nat, n: nat)
    requires mode < 0x1_0000 && SafeName([0x61])
    ensures Described(OneEntry(mode % 0x100, mode / 0x100), n, SafeName) <==> n == 1 && mode / 0x1000 in {0, 4, 8}
  {
    var h := EmptyFile(mode);
    OneWritten(mode);
    OneOrdinary(mode);
    WrittenDescribed([], [h], [], SafeName, n);
    assert h in [h];
  }

  lemma LetterIsSafe()
    ensures SafeName([0x61])
  {
    Utf8.EncodeFirst('a', "");
    assert Utf8.Encode("a") == [0x61];
    Utf8.FromEncoded("a");
    SplitJoin(["a"], '/');
    assert Split("a", '/') == ["a"];
  }
}
