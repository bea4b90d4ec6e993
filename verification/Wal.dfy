/** The write-ahead log: checksummed, length-prefixed records in a file with a cursor. */
module WriteAheadLog {
  import opened Base

  const MAX_ENTRY: nat := 128 * 1024 * 1024
  const HEADER_SIZE: nat := 12

  /** The checksum is a parameter: nothing below depends on which function it is. */
  type Checksum = Bytes -> u32

  /** One record: checksum (4 bytes) and length (8 bytes), both big-endian, then the data. */
  function Record(crc: Checksum, data: Bytes): (r: Bytes)
    ensures |r| == HEADER_SIZE + |data|
  {
    Be(crc(data), WIDTH_32) + Be(|data| % TWO_64, WIDTH_64) + data
  }

  function EncodeAll(crc: Checksum, entries: seq<Bytes>): Bytes {
    if |entries| == 0 then [] else Record(crc, entries[0]) + EncodeAll(crc, entries[1..])
  }

  datatype ReadResult = Entries(entries: seq<Bytes>) | UnexpectedEof | EntryTooLarge | ChecksumMismatch {
    function Prepend(first: seq<Bytes>): ReadResult {
      if Entries? then Entries(first + entries) else this
    }
  }

  /** What reading makes of the bytes from the cursor on, and how many of them it consumes. */
  datatype Reading = Reading(result: ReadResult, consumed: nat)

  /** Reads records to the end of the file. A short checksum field ends the log; any other shortfall is an error. */
  function Read(crc: Checksum, bytes: Bytes): (r: Reading)
    ensures r.consumed <= |bytes|
  {
    if |bytes| < 4 then Reading(Entries([]), |bytes|)
    else if |bytes| < HEADER_SIZE then Reading(UnexpectedEof, |bytes|)
    else
      var len := FromBe(bytes[4..12]);
      if len > MAX_ENTRY then Reading(EntryTooLarge, HEADER_SIZE)
      else if |bytes| < HEADER_SIZE + len then Reading(UnexpectedEof, |bytes|)
      else
        var data := bytes[12..12 + len];
        if crc(data) != FromBe(bytes[..4]) then Reading(ChecksumMismatch, HEADER_SIZE + len)
        else
          var rest := Read(crc, bytes[12 + len..]);
          Reading(rest.result.Prepend([data]), HEADER_SIZE + len + rest.consumed)
  }

  /** The file after writing at a position, overwriting what is there and filling any gap with zeros. */
  function Overwrite(file: Bytes, pos: nat, bytes: Bytes): Bytes {
    var before := SetLen(file, pos);
    before + bytes + (if pos + |bytes| <= |file| then file[pos + |bytes|..] else [])
  }

  /** The file cut or zero-extended to a length. */
  function SetLen(file: Bytes, size: nat): (r: Bytes)
    ensures |r| == size
  {
    if size <= |file| then file[..size] else file + seq<Byte>(size - |file|, _ => 0)
  }

  /** The file and its cursor. */
  datatype Disk = Disk(file: Bytes, pos: nat)

  /** The disk after a record is written at the cursor. */
  function WriteRecord(crc: Checksum, d: Disk, data: Bytes): Disk {
    Disk(Overwrite(d.file, d.pos, Record(crc, data)), d.pos + HEADER_SIZE + |data|)
  }

  /** The disk after a read from the start. */
  function AfterRead(crc: Checksum, d: Disk): Disk {
    var r := Read(crc, d.file);
    Disk(d.file, if r.result.Entries? then |d.file| else r.consumed)
  }

  class Wal {
    const crc: Checksum
    var file: Bytes
    var pos: nat

    ghost function State(): Disk
      reads this
    {
      Disk(file, pos)
    }

    /** Opening leaves the cursor at the start of the file. */
    constructor Open(crc: Checksum, existing: Bytes)
      ensures this.crc == crc && file == existing && pos == 0
    {
      this.crc := crc;
      file := existing;
      pos := 0;
    }

    method Write(bytes: Bytes)
      modifies this
      ensures file == Overwrite(old(file), old(pos), bytes)
      ensures pos == old(pos) + |bytes|
    {
      file := Overwrite(file, pos, bytes);
      pos := pos + |bytes|;
    }

    method Append(data: Bytes) returns (end: nat)
      modifies this
      ensures State() == WriteRecord(crc, old(State()), data)
      ensures end == pos
    {
      var checksum := crc(data);
      Write(Be(checksum, WIDTH_32));
      Write(Be(|data| % TWO_64, WIDTH_64));
      Write(data);
      OverwriteTwice(old(file), old(pos), Be(checksum, WIDTH_32), Be(|data| % TWO_64, WIDTH_64));
      OverwriteTwice(old(file), old(pos), Be(checksum, WIDTH_32) + Be(|data| % TWO_64, WIDTH_64), data);
      end := pos;
    }

    method Truncate(size: nat)
      modifies this`file
      ensures file == SetLen(old(file), size)
    {
      file := SetLen(file, size);
    }

    /** Reads every record from the start. Only a successful read puts the cursor at the end of the file. */
    method ReadAll() returns (r: ReadResult)
      modifies this`pos
      ensures r == Read(crc, file).result
      ensures State() == AfterRead(crc, old(State()))
    {
      pos := 0;
      var entries: seq<Bytes> := [];
      while true
        invariant pos <= |file|
        invariant Read(crc, file).result == Read(crc, file[pos..]).result.Prepend(entries)
        invariant Read(crc, file).consumed == pos + Read(crc, file[pos..]).consumed
        decreases |file| - pos
      {
        var rest := file[pos..];
        if |rest| < 4 {
          break;
        }
        var checksum := FromBe(rest[..4]);
        if |rest| < HEADER_SIZE {
          pos := |file|;
          return UnexpectedEof;
        }
        var len := FromBe(rest[4..12]);
        if len > MAX_ENTRY {
          pos := pos + HEADER_SIZE;
          return EntryTooLarge;
        }
        if |rest| < HEADER_SIZE + len {
          pos := |file|;
          return UnexpectedEof;
        }
        var buffer := rest[12..12 + len];
        pos := pos + HEADER_SIZE + len;
        if crc(buffer) != checksum {
          return ChecksumMismatch;
        }
        assert rest[12 + len..] == file[pos..];
        PrependSnoc(Read(crc, file[pos..]).result, entries, buffer);
        entries := entries + [buffer];
      }
      pos := |file|;
      r := Entries(entries);
    }
  }

  lemma OverwriteTwice(file: Bytes, pos: nat, a: Bytes, b: Bytes)
    ensures Overwrite(Overwrite(file, pos, a), pos + |a|, b) == Overwrite(file, pos, a + b)
  {}

  lemma OverwriteAtEnd(file: Bytes, bytes: Bytes)
    ensures Overwrite(file, |file|, bytes) == file + bytes
  {}

  /** Writing changes the bytes it covers and fills a gap before them with zeros. */
  lemma OverwriteBytes(file: Bytes, pos: nat, bytes: Bytes, i: nat)
    requires i < |Overwrite(file, pos, bytes)|
    ensures |Overwrite(file, pos, bytes)| == if pos + |bytes| <= |file| then |file| else pos + |bytes|
    ensures Overwrite(file, pos, bytes)[i] ==
      if pos <= i < pos + |bytes| then bytes[i - pos] else if i < |file| then file[i] else 0
  {}

  /** Truncating keeps the bytes below the new size and fills with zeros up to it. */
  lemma SetLenBytes(file: Bytes, size: nat, i: nat)
    requires i < size
    ensures SetLen(file, size)[i] == if i < |file| then file[i] else 0
  {}

  // ---- reading inverts appending ----

  /** Every entry is within the reader's limit. */
  predicate Readable(entries: seq<Bytes>) {
    forall i :: 0 <= i < |entries| ==> |entries[i]| <= MAX_ENTRY
  }

  lemma {:induction false} EncodeAppend(crc: Checksum, entries: seq<Bytes>, more: seq<Bytes>)
    ensures EncodeAll(crc, entries + more) == EncodeAll(crc, entries) + EncodeAll(crc, more)
  {
    if |entries| == 0 {
      assert entries + more == more;
    } else {
      assert (entries + more)[1..] == entries[1..] + more;
      EncodeAppend(crc, entries[1..], more);
      Assoc(Record(crc, entries[0]), EncodeAll(crc, entries[1..]), EncodeAll(crc, more));
    }
  }

  lemma EncodeOne(crc: Checksum, data: Bytes)
    ensures EncodeAll(crc, [data]) == Record(crc, data)
  {
    assert EncodeAll(crc, [data]) == Record(crc, data) + EncodeAll(crc, []);
  }

  /** The fields the reader sees in a record. */
  lemma RecordFields(crc: Checksum, data: Bytes, more: Bytes)
    ensures var b := Record(crc, data) + more;
      && FromBe(b[..4]) == crc(data)
      && FromBe(b[4..12]) == |data| % TWO_64
      && b[12..12 + |data|] == data
      && b[12 + |data|..] == more
  {
    Widths();
    BeRoundTrip(crc(data), WIDTH_32);
    BeRoundTrip(|data| % TWO_64, WIDTH_64);
    var b := Record(crc, data) + more;
    assert b[..4] == Be(crc(data), WIDTH_32) && b[4..12] == Be(|data| % TWO_64, WIDTH_64);
  }

  /** A record is determined by the fields the reader checks. */
  lemma RecordOfFields(crc: Checksum, checksum: Bytes, length: Bytes, data: Bytes)
    requires |checksum| == WIDTH_32 && |length| == WIDTH_64 && |data| < TWO_64
    requires FromBe(checksum) == crc(data) && FromBe(length) == |data|
    ensures checksum + length + data == Record(crc, data)
  {
    BeOfFromBe(checksum);
    BeOfFromBe(length);
    SmallMod(|data|, TWO_64);
  }

  lemma FourParts(bytes: Bytes, len: nat)
    requires HEADER_SIZE + len <= |bytes|
    ensures bytes == bytes[..4] + bytes[4..12] + bytes[12..12 + len] + bytes[12 + len..]
  {}

  /** Reading a whole record takes it off the front. */
  lemma ReadRecord(crc: Checksum, data: Bytes, more: Bytes)
    requires |data| <= MAX_ENTRY
    ensures Read(crc, Record(crc, data) + more) ==
      var rest := Read(crc, more); Reading(rest.result.Prepend([data]), HEADER_SIZE + |data| + rest.consumed)
  {
    RecordFields(crc, data, more);
    SmallMod(|data|, TWO_64);
  }

  /** Bytes that are the encoding of a list of readable entries followed by fewer than four stray bytes. */
  predicate WholeLog(crc: Checksum, bytes: Bytes, entries: seq<Bytes>) {
    Readable(entries) && EncodeAll(crc, entries) <= bytes && |bytes| - |EncodeAll(crc, entries)| < 4
  }

  /** Reading takes a list of readable entries off the front and goes on with what follows. */
  lemma {:induction false} ReadEntries(crc: Checksum, entries: seq<Bytes>, more: Bytes)
    requires Readable(entries)
    ensures Read(crc, EncodeAll(crc, entries) + more) ==
      var rest := Read(crc, more); Reading(rest.result.Prepend(entries), |EncodeAll(crc, entries)| + rest.consumed)
  {
    if |entries| == 0 {
      assert EncodeAll(crc, entries) + more == more;
    } else {
      var data, rest := entries[0], EncodeAll(crc, entries[1..]);
      assert |entries[0]| <= MAX_ENTRY;
      Assoc(Record(crc, data), rest, more);
      ReadRecord(crc, data, rest + more);
      ReadEntries(crc, entries[1..], more);
      PrependTwice(Read(crc, more).result, entries);
    }
  }

  lemma PrependSnoc(r: ReadResult, entries: seq<Bytes>, data: Bytes)
    ensures r.Prepend([data]).Prepend(entries) == r.Prepend(entries + [data])
  {
    if r.Entries? {
      Assoc(entries, [data], r.entries);
    }
  }

  lemma PrependTwice(r: ReadResult, entries: seq<Bytes>)
    requires |entries| > 0
    ensures r.Prepend(entries[1..]).Prepend([entries[0]]) == r.Prepend(entries)
  {}

  lemma {:induction false} ReadsWholeLog(crc: Checksum, bytes: Bytes)
    requires Read(crc, bytes).result.Entries?
    ensures WholeLog(crc, bytes, Read(crc, bytes).result.entries)
    decreases |bytes|
  {
    if |bytes| >= HEADER_SIZE {
      var len := FromBe(bytes[4..12]);
      var data := bytes[12..12 + len];
      var rest := bytes[12 + len..];
      ReadsWholeLog(crc, rest);
      FourParts(bytes, len);
      RecordOfFields(crc, bytes[..4], bytes[4..12], data);
      var more := Read(crc, rest).result.entries;
      var entries := [data] + more;
      assert entries[1..] == more;
      assert EncodeAll(crc, entries) == Record(crc, data) + EncodeAll(crc, more);
    }
  }

  /** Reading succeeds with a list exactly on the encodings of that list plus fewer than four stray bytes. */
  lemma ReadExactly(crc: Checksum, bytes: Bytes, entries: seq<Bytes>)
    ensures Read(crc, bytes).result == Entries(entries) <==> WholeLog(crc, bytes, entries)
  {
    if Read(crc, bytes).result == Entries(entries) {
      ReadsWholeLog(crc, bytes);
    }
    if WholeLog(crc, bytes, entries) {
      var encoded := EncodeAll(crc, entries);
      PrefixRest(encoded, bytes);
      ReadEntries(crc, entries, bytes[|encoded|..]);
    }
  }

  /** What stops the reader at the front of these bytes: nothing, or too few bytes, or a length that is too large, or a
      checksum that is not the data's. */
  function Obstacle(crc: Checksum, rest: Bytes): ReadResult {
    if |rest| < 4 then Entries([])
    else if |rest| < 12 then UnexpectedEof
    else
      var len := FromBe(rest[4..12]);
      if len > 134_217_728 then EntryTooLarge
      else if |rest| - 12 < len then UnexpectedEof
      else if FromBe(rest[..4]) != crc(rest[12..12 + len]) then ChecksumMismatch
      else Entries([])
  }

  /** Where the reader is after it has met an obstacle. */
  function StopsAt(crc: Checksum, rest: Bytes): nat {
    match Obstacle(crc, rest)
    case EntryTooLarge => 12
    case ChecksumMismatch => if |rest| >= 12 then 12 + FromBe(rest[4..12]) else 0
    case _ => |rest|
  }

  /** The whole records at the front of any bytes, and what follows the last of them. */
  lemma {:induction false} WholeRecords(crc: Checksum, bytes: Bytes) returns (good: seq<Bytes>, rest: Bytes)
    ensures Readable(good) && bytes == EncodeAll(crc, good) + rest
    ensures |rest| < 4 || !Obstacle(crc, rest).Entries?
    decreases |bytes|
  {
    if |bytes| < 12 || !Obstacle(crc, bytes).Entries? {
      good, rest := [], bytes;
    } else {
      var len := FromBe(bytes[4..12]);
      var data := bytes[12..12 + len];
      var more, rest' := WholeRecords(crc, bytes[12 + len..]);
      FourParts(bytes, len);
      RecordOfFields(crc, bytes[..4], bytes[4..12], data);
      good, rest := [data] + more, rest';
      assert good[1..] == more;
      Assoc(Record(crc, data), EncodeAll(crc, more), rest);
    }
  }

  /** Reading takes the whole records off the front, and its result is decided by what follows them. */
  lemma ReadStops(crc: Checksum, good: seq<Bytes>, rest: Bytes)
    requires Readable(good) && (|rest| < 4 || !Obstacle(crc, rest).Entries?)
    ensures var r := Read(crc, EncodeAll(crc, good) + rest);
      && r.result == (if |rest| < 4 then Entries(good) else Obstacle(crc, rest))
      && r.consumed == |EncodeAll(crc, good)| + StopsAt(crc, rest)
  {
    ReadEntries(crc, good, rest);
    assert good + [] == good;
  }

  /** Every result of reading, on any bytes: the whole records at the front if fewer than four bytes follow them,
      otherwise the error that stands after the last of them. */
  lemma ReadOutcome(crc: Checksum, bytes: Bytes) returns (good: seq<Bytes>, rest: Bytes)
    ensures Readable(good) && bytes == EncodeAll(crc, good) + rest
    ensures |rest| < 4 || !Obstacle(crc, rest).Entries?
    ensures Read(crc, bytes).result == if |rest| < 4 then Entries(good) else Obstacle(crc, rest)
    ensures Read(crc, bytes).consumed == |EncodeAll(crc, good)| + StopsAt(crc, rest)
  {
    good, rest := WholeRecords(crc, bytes);
    ReadStops(crc, good, rest);
  }

  /** The cursor after a read: past the last byte if that worked, else where the reader stopped. */
  lemma CursorAfterRead(crc: Checksum, good: seq<Bytes>, rest: Bytes, pos: nat)
    requires Readable(good) && (|rest| < 4 || !Obstacle(crc, rest).Entries?)
    ensures AfterRead(crc, Disk(EncodeAll(crc, good) + rest, pos)) ==
      Disk(EncodeAll(crc, good) + rest, |EncodeAll(crc, good)| + StopsAt(crc, rest))
  {
    ReadStops(crc, good, rest);
  }

  /** Appended entries are read back exactly when none is above the reader's limit, which appending does not check. */
  lemma AppendedReadsBack(crc: Checksum, entries: seq<Bytes>)
    ensures Read(crc, EncodeAll(crc, entries)).result == Entries(entries) <==> Readable(entries)
  {
    ReadExactly(crc, EncodeAll(crc, entries), entries);
  }

  /** A strict prefix of a record, alone, is an empty log or unreadable. */
  lemma TornRecord(crc: Checksum, data: Bytes, cut: nat)
    requires |data| <= MAX_ENTRY && cut < HEADER_SIZE + |data|
    ensures Read(crc, Record(crc, data)[..cut]).result == if cut < 4 then Entries([]) else UnexpectedEof
  {
    RecordFields(crc, data, []);
    SmallMod(|data|, TWO_64);
    assert Record(crc, data) + [] == Record(crc, data);
    if cut >= HEADER_SIZE {
      assert Record(crc, data)[..cut][4..12] == Record(crc, data)[4..12];
    }
  }

  lemma TornTail(crc: Checksum, entries: seq<Bytes>, cut: nat)
    requires |entries| > 0 && |entries[0]| <= MAX_ENTRY && cut < HEADER_SIZE + |entries[0]|
    ensures cut <= |EncodeAll(crc, entries)|
    ensures Read(crc, EncodeAll(crc, entries)[..cut]).result == if cut < 4 then Entries([]) else UnexpectedEof
  {
    TakeWithin(Record(crc, entries[0]), EncodeAll(crc, entries[1..]), cut);
    TornRecord(crc, entries[0], cut);
  }

  lemma EncodeBoundary(crc: Checksum, entries: seq<Bytes>, j: nat)
    requires j <= |entries|
    ensures EncodeAll(crc, entries) == EncodeAll(crc, entries[..j]) + EncodeAll(crc, entries[j..])
    ensures j < |entries| ==>
      |EncodeAll(crc, entries[..j + 1])| == |EncodeAll(crc, entries[..j])| + HEADER_SIZE + |entries[j]|
  {
    SplitAt(entries, j);
    EncodeAppend(crc, entries[..j], entries[j..]);
    if j < |entries| {
      assert entries[..j + 1] == entries[..j] + [entries[j]];
      EncodeAppend(crc, entries[..j], [entries[j]]);
      EncodeOne(crc, entries[j]);
    }
  }

  /** A log cut inside record j keeps the whole records before it, if under four bytes of that record are left;
      otherwise it cannot be read. */
  lemma TornLog(crc: Checksum, entries: seq<Bytes>, cut: nat, j: nat)
    requires Readable(entries) && j <= |entries| && cut <= |EncodeAll(crc, entries)|
    requires |EncodeAll(crc, entries[..j])| <= cut
    requires j < |entries| ==> cut < |EncodeAll(crc, entries[..j + 1])|
    ensures Read(crc, EncodeAll(crc, entries)[..cut]).result ==
      if cut - |EncodeAll(crc, entries[..j])| < 4 then Entries(entries[..j]) else UnexpectedEof
  {
    var whole, rest := EncodeAll(crc, entries[..j]), EncodeAll(crc, entries[j..]);
    var left := cut - |whole|;
    EncodeBoundary(crc, entries, j);
    TakePast(whole, rest, left);
    if j < |entries| {
      assert entries[j..][0] == entries[j];
      TornTail(crc, entries[j..], left);
    }
    assert Read(crc, rest[..left]).result == if left < 4 then Entries([]) else UnexpectedEof;
    assert Readable(entries[..j]);
    ReadEntries(crc, entries[..j], rest[..left]);
    assert entries[..j] + [] == entries[..j];
  }

  /** Truncating to where the k-th record ends leaves the first k entries. */
  lemma TruncatedReads(crc: Checksum, entries: seq<Bytes>, k: nat)
    requires Readable(entries) && k <= |entries|
    ensures Read(crc, SetLen(EncodeAll(crc, entries), |EncodeAll(crc, entries[..k])|)).result == Entries(entries[..k])
  {
    EncodeBoundary(crc, entries, k);
    Parts(EncodeAll(crc, entries[..k]), EncodeAll(crc, entries[k..]));
    AppendedReadsBack(crc, entries[..k]);
  }

  // ---- whole runs of appends and reads ----

  /** What a caller can append: a slice, whose length fits 64 bits. */
  type Slice = data: Bytes | |data| < TWO_64

  /** Reading back covers a handle in use and a newly opened one: both start at the front of the file. */
  datatype WalOp = AppendData(data: Slice) | ReadBack

  function WalStep(crc: Checksum, d: Disk, op: WalOp): Disk {
    match op
    case AppendData(data) => WriteRecord(crc, d, data)
    case ReadBack => AfterRead(crc, d)
  }

  /** The disk after a run of operations on a new file. */
  function WalRun(crc: Checksum, ops: seq<WalOp>): Disk {
    if |ops| == 0 then Disk([], 0) else WalStep(crc, WalRun(crc, Front(ops)), Last(ops))
  }

  function DataIn(ops: seq<WalOp>): seq<Bytes> {
    if |ops| == 0 then []
    else DataIn(Front(ops)) + match Last(ops) case AppendData(data) => [data] case ReadBack => []
  }

  /** The file is the encoding of a list of entries and the cursor is at its end. */
  predicate Holds(crc: Checksum, d: Disk, entries: seq<Bytes>) {
    d.file == EncodeAll(crc, entries) && d.pos == |d.file|
  }

  /** A write at the end adds one entry. */
  lemma WriteAtEnd(crc: Checksum, d: Disk, entries: seq<Bytes>, data: Bytes)
    requires Holds(crc, d, entries)
    ensures Holds(crc, WriteRecord(crc, d, data), entries + [data])
  {
    OverwriteAtEnd(d.file, Record(crc, data));
    EncodeAppend(crc, entries, [data]);
    EncodeOne(crc, data);
  }

  /** The file holds readable entries and then a record the reader refuses, and the cursor is past that header. */
  predicate StuckAfter(crc: Checksum, d: Disk, good: seq<Bytes>) {
    var p := |EncodeAll(crc, good)|;
    && Readable(good)
    && p + HEADER_SIZE <= |d.file| && p + HEADER_SIZE <= d.pos
    && d.file[..p] == EncodeAll(crc, good)
    && FromBe(d.file[p + 4..p + 12]) > MAX_ENTRY
  }

  lemma StuckReads(crc: Checksum, d: Disk, good: seq<Bytes>)
    requires StuckAfter(crc, d, good)
    ensures Read(crc, d.file) == Reading(EntryTooLarge, |EncodeAll(crc, good)| + HEADER_SIZE)
  {
    var p := |EncodeAll(crc, good)|;
    var rest := d.file[p..];
    SplitAt(d.file, p);
    assert |rest| >= HEADER_SIZE && rest[4..12] == d.file[p + 4..p + 12];
    ReadStops(crc, good, rest);
  }

  lemma OverwriteKeeps(file: Bytes, pos: nat, bytes: Bytes, n: nat)
    requires n <= |file| && n <= pos
    ensures |Overwrite(file, pos, bytes)| >= n && Overwrite(file, pos, bytes)[..n] == file[..n]
  {}

  lemma StuckStays(crc: Checksum, d: Disk, good: seq<Bytes>, data: Bytes)
    requires StuckAfter(crc, d, good)
    ensures StuckAfter(crc, WriteRecord(crc, d, data), good)
  {
    var p := |EncodeAll(crc, good)|;
    var file := WriteRecord(crc, d, data).file;
    OverwriteKeeps(d.file, d.pos, Record(crc, data), p + HEADER_SIZE);
    assert file[..p] == file[..p + HEADER_SIZE][..p] == d.file[..p];
    assert file[p + 4..p + 12] == file[..p + HEADER_SIZE][p + 4..p + 12] == d.file[p + 4..p + 12];
  }

  /** The length field of a record, seen in a file that ends with it. */
  lemma LengthField(crc: Checksum, before: Bytes, data: Bytes)
    requires |data| < TWO_64
    ensures var file := before + Record(crc, data);
      file[..|before|] == before && FromBe(file[|before| + 4..|before| + 12]) == |data|
  {
    var r, p := Record(crc, data), |before|;
    RecordFields(crc, data, []);
    SmallMod(|data|, TWO_64);
    assert r + [] == r;
    assert (before + r)[p + 4..p + 12] == r[4..12];
  }

  lemma GetsStuck(crc: Checksum, d: Disk, good: seq<Bytes>, data: Slice)
    requires Holds(crc, d, good) && Readable(good) && |data| > MAX_ENTRY
    ensures StuckAfter(crc, WriteRecord(crc, d, data), good)
  {
    OverwriteAtEnd(d.file, Record(crc, data));
    LengthField(crc, d.file, data);
  }

  /** While every entry is within the limit, the file holds what was appended, through reads as well. */
  lemma {:induction false} RunHolds(crc: Checksum, ops: seq<WalOp>)
    requires Readable(DataIn(ops))
    ensures Holds(crc, WalRun(crc, ops), DataIn(ops))
  {
    if |ops| > 0 {
      var before := DataIn(Front(ops));
      assert before == DataIn(ops)[..|before|];
      RunHolds(crc, Front(ops));
      match Last(ops)
      case AppendData(data) => WriteAtEnd(crc, WalRun(crc, Front(ops)), before, data);
      case ReadBack =>
        AppendedReadsBack(crc, before);
        assert DataIn(ops) == before;
    }
  }

  lemma StuckStep(crc: Checksum, d: Disk, good: seq<Bytes>, op: WalOp)
    requires StuckAfter(crc, d, good)
    ensures StuckAfter(crc, WalStep(crc, d, op), good)
  {
    match op
    case AppendData(data) => StuckStays(crc, d, good, data);
    case ReadBack => StuckReads(crc, d, good);
  }

  lemma {:induction false} RunStuck(crc: Checksum, ops: seq<WalOp>) returns (good: seq<Bytes>)
    requires !Readable(DataIn(ops))
    ensures StuckAfter(crc, WalRun(crc, ops), good)
  {
    var d, before := WalRun(crc, Front(ops)), DataIn(Front(ops));
    if Readable(before) {
      RunHolds(crc, Front(ops));
      good := before;
      GetsStuck(crc, d, good, Last(ops).data);
    } else {
      good := RunStuck(crc, Front(ops));
      StuckStep(crc, d, good, Last(ops));
    }
  }

  /** After any run, a read returns everything appended exactly when every entry is within the reader's limit. One
      longer entry makes every later read fail, whatever is appended after it and however often it is reopened. */
  lemma RunReadsExactly(crc: Checksum, ops: seq<WalOp>)
    ensures Read(crc, WalRun(crc, ops).file).result ==
      if Readable(DataIn(ops)) then Entries(DataIn(ops)) else EntryTooLarge
  {
    if Readable(DataIn(ops)) {
      RunHolds(crc, ops);
      AppendedReadsBack(crc, DataIn(ops));
    } else {
      var good := RunStuck(crc, ops);
      StuckReads(crc, WalRun(crc, ops), good);
    }
  }

  lemma {:induction false} DataInFirst(op: WalOp, later: seq<WalOp>)
    ensures DataIn([op] + later) == DataIn([op]) + DataIn(later)
  {
    if |later| == 0 {
      assert [op] + later == [op];
    } else {
      assert Front([op] + later) == [op] + Front(later);
      DataInFirst(op, Front(later));
    }
  }

  /** The shortest such entry: one append of 128 MiB and a byte, and the log is never readable again. */
  lemma OneByteTooLong(crc: Checksum, later: seq<WalOp>)
    ensures var long := seq<Byte>(MAX_ENTRY + 1, _ => 0);
      Read(crc, WalRun(crc, [AppendData(long)] + later).file).result == EntryTooLarge
  {
    var long := seq<Byte>(MAX_ENTRY + 1, _ => 0);
    DataInFirst(AppendData(long), later);
    assert DataIn([AppendData(long)]) == [long] by { assert Front([AppendData(long)]) == []; }
    assert DataIn([AppendData(long)] + later)[0] == long;
    RunReadsExactly(crc, [AppendData(long)] + later);
  }
}
