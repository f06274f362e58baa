/**
 Archives as APPNOTE.TXT of PKWARE lays them out (sections 4.3.7, 4.3.12 and 4.3.16), and what unzipping one
 gives.
 */
module ZipArchive {
  import opened Common
  import opened Unzip

  /** A file or directory of an archive. Fields the reader skips are arbitrary bytes of the right length. */
  datatype Entry = Entry(
    name: Bytes,
    id: nat,              // compression method
    payload: Bytes,       // contents, compressed if the method says so
    versions: Bytes,      // 6 bytes of the directory entry: versions and flags
    timeAndCrc: Bytes,    // 8 bytes: time, date, CRC
    fullSize: Bytes,      // 4 bytes: uncompressed size
    attributes: Bytes,    // 8 bytes: disk and attributes
    extra: Bytes,
    comment: Bytes,
    localFields: Bytes,   // 22 bytes of the local header, from the version to the sizes
    localName: Bytes,
    localExtra: Bytes)
  {
    predicate Valid() {
      && id < 0x1_0000 && |payload| < 0x1_0000_0000
      && |name| < 0x1_0000 && |extra| < 0x1_0000 && |comment| < 0x1_0000
      && |localName| < 0x1_0000 && |localExtra| < 0x1_0000
      && |versions| == 6 && |timeAndCrc| == 8 && |fullSize| == 4 && |attributes| == 8 && |localFields| == 22
    }
  }

  /** Digit `i` of `n` in base 256. */
  function Digit(n: nat, i: nat): Byte
    decreases i
  {
    if i == 0 then n % 0x100 else Digit(n / 0x100, i - 1)
  }

  function Le16(n: nat): (b: Bytes)
    requires n < 0x1_0000
    ensures |b| == 2
  {
    [Digit(n, 0), Digit(n, 1)]
  }

  function Le32(n: nat): (b: Bytes)
    requires n < 0x1_0000_0000
    ensures |b| == 4
  {
    [Digit(n, 0), Digit(n, 1), Digit(n, 2), Digit(n, 3)]
  }

  /** "PK" and two digits, as the standard spells its signatures. */
  lemma SignatureBytes()
    ensures Le32(LOCAL_SIGNATURE) == [0x50, 0x4b, 3, 4]
    ensures Le32(CENTRAL_SIGNATURE) == [0x50, 0x4b, 1, 2]
    ensures Le32(END_SIGNATURE) == [0x50, 0x4b, 5, 6]
    ensures Le16(0x0102) == [2, 1]
  {
  }

  /** Section 4.3.7, with the file data behind the header. */
  function LocalRecord(e: Entry): Bytes
    requires e.Valid()
  {
    Le32(LOCAL_SIGNATURE) + (e.localFields + (Le16(|e.localName|) + (Le16(|e.localExtra|)
    + (e.localName + (e.localExtra + e.payload)))))
  }

  /** Section 4.3.12. */
  function CentralRecord(e: Entry, offset: nat): Bytes
    requires e.Valid() && offset < 0x1_0000_0000
  {
    Le32(CENTRAL_SIGNATURE) + (e.versions + (Le16(e.id) + (e.timeAndCrc + (Le32(|e.payload|) + (e.fullSize
    + (Le16(|e.name|) + (Le16(|e.extra|) + (Le16(|e.comment|) + (e.attributes + (Le32(offset)
    + (e.name + (e.extra + e.comment))))))))))))
  }

  /** The end record: 6 bytes of disk numbers and count on this disk, and the directory's size, are skipped. */
  datatype EndRecord = EndRecord(disks: Bytes, count: nat, directorySize: Bytes, offset: nat, comment: Bytes) {
    predicate Valid() {
      |disks| == 6 && count < 0xFFFF && |directorySize| == 4 && offset < 0xFFFF_FFFF && |comment| < 0x1_0000
    }

    /** Section 4.3.16. */
    function Encoded(): Bytes
      requires Valid()
    {
      Le32(END_SIGNATURE) + (disks + (Le16(count) + (directorySize + (Le32(offset)
      + (Le16(|comment|) + comment)))))
    }

    function Size(): nat { END_SIZE + |comment| }
  }

  /** `part` stands in `buf` at `pos`. */
  predicate At(buf: Bytes, pos: nat, part: Bytes) {
    pos + |part| <= |buf| && buf[pos..pos + |part|] == part
  }

  /** `end` stands at the end of `buf`. */
  predicate Closes(buf: Bytes, end: EndRecord) {
    end.Valid() && end.Size() <= |buf| && At(buf, |buf| - end.Size(), end.Encoded())
  }

  /** Length of a directory entry. */
  function CentralSize(e: Entry): nat { 46 + |e.name| + |e.extra| + |e.comment| }

  /** Where directory entry `i` starts when the first one starts at `pos`. */
  function EntryPos(es: seq<Entry>, pos: nat, i: nat): nat
    requires i <= |es|
  {
    if i == 0 then pos else EntryPos(es, pos, i - 1) + CentralSize(es[i - 1])
  }

  /** The entry's directory entry is at `pos` and its local record where that says. */
  predicate HasEntry(buf: Bytes, pos: nat, e: Entry, offset: nat) {
    && e.Valid() && offset < 0x1_0000_0000
    && At(buf, offset, LocalRecord(e)) && At(buf, pos, CentralRecord(e, offset))
  }

  /** The directory entries of `es`, whose local records are at `offsets`, follow each other from `pos` on. */
  predicate Directory(buf: Bytes, pos: nat, es: seq<Entry>, offsets: seq<nat>)
    requires |es| == |offsets|
  {
    forall i {:trigger HasEntry(buf, EntryPos(es, pos, i), es[i], offsets[i])} ::
      0 <= i < |es| ==> HasEntry(buf, EntryPos(es, pos, i), es[i], offsets[i])
  }

  /** `buf` is an archive of `es`: the end record closes it, and local records may be anywhere. */
  predicate IsArchive(buf: Bytes, es: seq<Entry>, offsets: seq<nat>, end: EndRecord) {
    && |es| == |offsets| == end.count
    && Closes(buf, end)
    && Directory(buf, end.offset, es, offsets)
  }

  /** No end record signature starts inside the rest of the end record, where only a comment could hold one. */
  predicate CommentIsClean(buf: Bytes, eocd: nat) {
    NoSignature(buf, eocd + 1, |buf| - END_SIZE)
  }

  // ----- What unzipping should give -----

  /** `base` has no separator, and one stands before it in `path` unless it is all of it. */
  predicate IsBaseOf(base: string, path: string) {
    && (forall i :: 0 <= i < |base| ==> base[i] != '/' && base[i] != '\\')
    && |base| <= |path| && path[|path| - |base|..] == base
    && (|base| < |path| ==> path[|path| - |base| - 1] == '/' || path[|path| - |base| - 1] == '\\')
  }

  lemma {:induction false} BaseNameIsBase(path: string)
    ensures IsBaseOf(BaseName(path), path)
    decreases |path|
  {
    if path != "" && path[|path| - 1] != '/' && path[|path| - 1] != '\\' {
      BaseNameIsBase(path[..|path| - 1]);
    }
  }

  /** The reader's base names are exactly these. */
  lemma BaseNamesExactly(base: string, path: string)
    ensures IsBaseOf(base, path) <==> base == BaseName(path)
  {
    BaseNameIsBase(path);
    if IsBaseOf(base, path) {
      var n := |path| - |base|;
      if n > 0 {
        assert path == path[..n - 1] + [path[n - 1]] + base;
        BaseNameExactly(path[..n - 1], path[n - 1], base);
      } else {
        assert path == base;
        BaseNameExactly("", '/', base);
      }
    }
  }

  function BaseOf(platform: Platform, e: Entry): string { BaseName(platform.decodeName(e.name)) }

  /** Directories and entries without a base name are skipped. */
  predicate IsFile(platform: Platform, e: Entry) {
    var path := platform.decodeName(e.name);
    (path == "" || path[|path| - 1] != '/') && BaseOf(platform, e) != ""
  }

  /** What the reader should find an entry to be. */
  function Described(platform: Platform, e: Entry): Found {
    if IsFile(platform, e) then File(BaseOf(platform, e), Extract(platform, e.id, e.payload, BaseOf(platform, e)))
    else Skipped
  }

  function AllDescribed(platform: Platform, es: seq<Entry>): (found: seq<Found>)
    ensures |found| == |es|
  {
    seq(|es|, i requires 0 <= i < |es| => Described(platform, es[i]))
  }

  // ----- Reading back what was laid out -----

  lemma AtSplit(buf: Bytes, pos: nat, a: Bytes, b: Bytes)
    ensures At(buf, pos, a + b) <==> At(buf, pos, a) && At(buf, pos + |a|, b)
  {
    if At(buf, pos, a + b) {
      assert buf[pos..pos + |a|] == (a + b)[..|a|] == a;
      assert buf[pos + |a|..pos + |a| + |b|] == (a + b)[|a|..] == b;
    }
    if At(buf, pos, a) && At(buf, pos + |a|, b) {
      assert buf[pos..pos + |a + b|] == buf[pos..pos + |a|] + buf[pos + |a|..pos + |a| + |b|];
    }
  }

  lemma Digits(n: nat)
    ensures n < 0x1_0000 ==> Digit(n, 0) + 0x100 * Digit(n, 1) == n
    ensures n < 0x1_0000_0000 ==>
      Digit(n, 0) + 0x100 * Digit(n, 1) + 0x1_0000 * Digit(n, 2) + 0x100_0000 * Digit(n, 3) == n
  {
    var n1 := n / 0x100;
    var n2 := n1 / 0x100;
    var n3 := n2 / 0x100;
    assert Digit(n, 1) == Digit(n1, 0) && Digit(n, 2) == Digit(n1, 1) == Digit(n2, 0);
    assert Digit(n, 3) == Digit(n1, 2) == Digit(n2, 1) == Digit(n3, 0);
  }

  lemma U16At(buf: Bytes, pos: nat, n: nat)
    requires n < 0x1_0000 && At(buf, pos, Le16(n))
    ensures U16(buf, pos) == n
  {
    Digits(n);
    var b := buf[pos..pos + 2];
    assert buf[pos] == b[0] && buf[pos + 1] == b[1];
  }

  lemma U32At(buf: Bytes, pos: nat, n: nat)
    requires n < 0x1_0000_0000 && At(buf, pos, Le32(n))
    ensures U32(buf, pos) == n
  {
    Digits(n);
    var b := buf[pos..pos + 4];
    assert buf[pos] == b[0] && buf[pos + 1] == b[1] && buf[pos + 2] == b[2] && buf[pos + 3] == b[3];
  }

  lemma SliceAt(buf: Bytes, pos: nat, b: Bytes)
    requires At(buf, pos, b)
    ensures Slice(buf, pos, pos + |b|) == b
  {
  }

  /** A local record from the name length on. */
  function LocalTail(e: Entry): Bytes
    requires e.Valid()
  {
    Le16(|e.localName|) + (Le16(|e.localExtra|) + (e.localName + (e.localExtra + e.payload)))
  }

  lemma LocalHeadReads(buf: Bytes, pos: nat, e: Entry)
    requires e.Valid() && At(buf, pos, LocalRecord(e))
    ensures U32(buf, pos) == LOCAL_SIGNATURE
    ensures At(buf, pos + 26, LocalTail(e))
  {
    AtSplit(buf, pos, Le32(LOCAL_SIGNATURE), e.localFields + LocalTail(e));
    AtSplit(buf, pos + 4, e.localFields, LocalTail(e));
    U32At(buf, pos, LOCAL_SIGNATURE);
  }

  lemma LocalTailReads(buf: Bytes, pos: nat, e: Entry)
    requires e.Valid() && At(buf, pos, LocalTail(e))
    ensures U16(buf, pos) == |e.localName| && U16(buf, pos + 2) == |e.localExtra|
    ensures At(buf, pos + 4, e.localName + (e.localExtra + e.payload))
  {
    var rest := e.localName + (e.localExtra + e.payload);
    AtSplit(buf, pos, Le16(|e.localName|), Le16(|e.localExtra|) + rest);
    AtSplit(buf, pos + 2, Le16(|e.localExtra|), rest);
    U16At(buf, pos, |e.localName|);
    U16At(buf, pos + 2, |e.localExtra|);
  }

  lemma PayloadReads(buf: Bytes, pos: nat, e: Entry)
    requires At(buf, pos, e.localName + (e.localExtra + e.payload))
    ensures var start := pos + |e.localName| + |e.localExtra|;
            Slice(buf, start, start + |e.payload|) == e.payload
  {
    AtSplit(buf, pos, e.localName, e.localExtra + e.payload);
    AtSplit(buf, pos + |e.localName|, e.localExtra, e.payload);
    SliceAt(buf, pos + |e.localName| + |e.localExtra|, e.payload);
  }

  /** The second half of a directory entry, from the name length on. */
  function CentralTail(e: Entry, offset: nat): Bytes
    requires e.Valid() && offset < 0x1_0000_0000
  {
    Le16(|e.name|) + (Le16(|e.extra|) + (Le16(|e.comment|) + (e.attributes + (Le32(offset)
    + (e.name + (e.extra + e.comment))))))
  }

  lemma CentralHeadReads(buf: Bytes, pos: nat, e: Entry, offset: nat)
    requires e.Valid() && offset < 0x1_0000_0000 && At(buf, pos, CentralRecord(e, offset))
    ensures U32(buf, pos) == CENTRAL_SIGNATURE && U16(buf, pos + 10) == e.id && U32(buf, pos + 20) == |e.payload|
    ensures At(buf, pos + 28, CentralTail(e, offset))
  {
    var rest6 := CentralTail(e, offset);
    var rest5 := e.fullSize + rest6;
    var rest4 := Le32(|e.payload|) + rest5;
    var rest3 := e.timeAndCrc + rest4;
    var rest2 := Le16(e.id) + rest3;
    var rest1 := e.versions + rest2;
    AtSplit(buf, pos, Le32(CENTRAL_SIGNATURE), rest1);
    AtSplit(buf, pos + 4, e.versions, rest2);
    AtSplit(buf, pos + 10, Le16(e.id), rest3);
    AtSplit(buf, pos + 12, e.timeAndCrc, rest4);
    AtSplit(buf, pos + 20, Le32(|e.payload|), rest5);
    AtSplit(buf, pos + 24, e.fullSize, rest6);
    U32At(buf, pos, CENTRAL_SIGNATURE);
    U16At(buf, pos + 10, e.id);
    U32At(buf, pos + 20, |e.payload|);
  }

  lemma CentralTailReads(buf: Bytes, pos: nat, e: Entry, offset: nat)
    requires e.Valid() && offset < 0x1_0000_0000 && At(buf, pos, CentralTail(e, offset))
    ensures U16(buf, pos) == |e.name| && U16(buf, pos + 2) == |e.extra| && U16(buf, pos + 4) == |e.comment|
    ensures U32(buf, pos + 14) == offset
    ensures Slice(buf, pos + 18, pos + 18 + |e.name|) == e.name
  {
    var rest4 := Le32(offset) + (e.name + (e.extra + e.comment));
    var rest3 := e.attributes + rest4;
    var rest2 := Le16(|e.comment|) + rest3;
    var rest1 := Le16(|e.extra|) + rest2;
    AtSplit(buf, pos, Le16(|e.name|), rest1);
    AtSplit(buf, pos + 2, Le16(|e.extra|), rest2);
    AtSplit(buf, pos + 4, Le16(|e.comment|), rest3);
    AtSplit(buf, pos + 6, e.attributes, rest4);
    U16At(buf, pos, |e.name|);
    U16At(buf, pos + 2, |e.extra|);
    U16At(buf, pos + 4, |e.comment|);
    NameReads(buf, pos + 14, e, offset);
  }

  lemma NameReads(buf: Bytes, pos: nat, e: Entry, offset: nat)
    requires offset < 0x1_0000_0000 && At(buf, pos, Le32(offset) + (e.name + (e.extra + e.comment)))
    ensures U32(buf, pos) == offset && Slice(buf, pos + 4, pos + 4 + |e.name|) == e.name
  {
    AtSplit(buf, pos, Le32(offset), e.name + (e.extra + e.comment));
    AtSplit(buf, pos + 4, e.name, e.extra + e.comment);
    U32At(buf, pos, offset);
    SliceAt(buf, pos + 4, e.name);
  }

  lemma CentralRecordSize(e: Entry, offset: nat)
    requires e.Valid() && offset < 0x1_0000_0000
    ensures |CentralRecord(e, offset)| == CentralSize(e)
  {
  }

  lemma HeaderReads(buf: Bytes, pos: nat, e: Entry, offset: nat)
    requires e.Valid() && offset < 0x1_0000_0000 && At(buf, pos, CentralRecord(e, offset))
    ensures U32(buf, pos) == CENTRAL_SIGNATURE
    ensures ReadHeader(buf, pos) == Header(e.id, |e.payload|, e.name, offset)
    ensures NextEntry(buf, pos) == pos + CentralSize(e)
  {
    CentralHeadReads(buf, pos, e, offset);
    CentralTailReads(buf, pos + 28, e, offset);
    CentralRecordSize(e, offset);
  }

  lemma LocalDataReads(buf: Bytes, pos: nat, e: Entry)
    requires e.Valid() && At(buf, pos, LocalRecord(e))
    ensures U32(buf, pos) == LOCAL_SIGNATURE && LocalData(buf, pos, |e.payload|) == e.payload
  {
    LocalHeadReads(buf, pos, e);
    LocalTailReads(buf, pos + 26, e);
    PayloadReads(buf, pos + 30, e);
  }

  /** One directory entry: the reader finds what it describes, and the entry behind it. */
  lemma EntryReads(platform: Platform, buf: Bytes, pos: nat, e: Entry, offset: nat)
    requires HasEntry(buf, pos, e, offset)
    ensures Find(platform, buf, pos) == Described(platform, e)
    ensures NextEntry(buf, pos) == pos + CentralSize(e)
  {
    HeaderReads(buf, pos, e, offset);
    LocalDataReads(buf, offset, e);
  }

  lemma DirectoryEntryReads(platform: Platform, buf: Bytes, pos: nat, es: seq<Entry>, offsets: seq<nat>, i: nat)
    requires |es| == |offsets| && Directory(buf, pos, es, offsets) && i < |es|
    ensures Find(platform, buf, EntryPos(es, pos, i)) == Described(platform, es[i])
    ensures NextEntry(buf, EntryPos(es, pos, i)) == EntryPos(es, pos, i + 1)
  {
    assert HasEntry(buf, EntryPos(es, pos, i), es[i], offsets[i]);
    EntryReads(platform, buf, EntryPos(es, pos, i), es[i], offsets[i]);
  }

  /** The reader's positions are those of the directory entries. */
  lemma {:induction false} PositionIs(platform: Platform, buf: Bytes, pos: nat, es: seq<Entry>, offsets: seq<nat>,
                                      i: nat)
    requires |es| == |offsets| && Directory(buf, pos, es, offsets) && i <= |es|
    ensures Position(buf, pos, i) == EntryPos(es, pos, i)
    decreases i
  {
    if i > 0 {
      PositionIs(platform, buf, pos, es, offsets, i - 1);
      DirectoryEntryReads(platform, buf, pos, es, offsets, i - 1);
    }
  }

  /** The reader finds the directory's entries to be what they describe, in order. */
  lemma DirectoryReads(platform: Platform, buf: Bytes, pos: nat, es: seq<Entry>, offsets: seq<nat>)
    requires |es| == |offsets| && Directory(buf, pos, es, offsets)
    ensures FindAll(platform, buf, pos, |es|) == AllDescribed(platform, es)
  {
    forall i: nat | i < |es|
      ensures FindAll(platform, buf, pos, |es|)[i] == AllDescribed(platform, es)[i]
    {
      PositionIs(platform, buf, pos, es, offsets, i);
      DirectoryEntryReads(platform, buf, pos, es, offsets, i);
    }
  }

  lemma EncodedSize(end: EndRecord)
    requires end.Valid()
    ensures |end.Encoded()| == end.Size()
  {
  }

  lemma EndRecordReads(buf: Bytes, pos: nat, end: EndRecord)
    requires end.Valid() && At(buf, pos, end.Encoded())
    ensures U32(buf, pos) == END_SIGNATURE
    ensures U16(buf, pos + 10) == end.count && U32(buf, pos + 16) == end.offset
    ensures At(buf, pos + END_SIZE, end.comment)
  {
    var rest5 := Le16(|end.comment|) + end.comment;
    var rest4 := Le32(end.offset) + rest5;
    var rest3 := end.directorySize + rest4;
    var rest2 := Le16(end.count) + rest3;
    var rest1 := end.disks + rest2;
    AtSplit(buf, pos, Le32(END_SIGNATURE), rest1);
    AtSplit(buf, pos + 4, end.disks, rest2);
    AtSplit(buf, pos + 10, Le16(end.count), rest3);
    AtSplit(buf, pos + 12, end.directorySize, rest4);
    AtSplit(buf, pos + 16, Le32(end.offset), rest5);
    AtSplit(buf, pos + 20, Le16(|end.comment|), end.comment);
    U32At(buf, pos, END_SIGNATURE);
    U16At(buf, pos + 10, end.count);
    U32At(buf, pos + 16, end.offset);
  }

  /** A signature is found exactly when it is the last one. */
  lemma SignatureFound(buf: Bytes, i: int, min: nat, eocd: nat)
    requires min <= eocd <= i && U32(buf, eocd) == END_SIGNATURE
    ensures Scan(buf, i, min) == Some(eocd) <==> NoSignature(buf, eocd + 1, i)
  {
    ScanFindsLast(buf, i, min);
  }

  /** An end record signature that the end of `buf` is no further from than the longest comment allows. */
  predicate EndRecordAt(buf: Bytes, eocd: nat) {
    U32(buf, eocd) == END_SIGNATURE && eocd + END_SIZE <= |buf| < eocd + END_SIZE + 0x1_0000
  }

  /** The end record is found exactly when its comment does not hold another signature. */
  lemma EndRecordFoundExactly(buf: Bytes, eocd: nat)
    requires EndRecordAt(buf, eocd)
    ensures Scan(buf, |buf| - END_SIZE, ScanStart(buf)) == Some(eocd) <==> CommentIsClean(buf, eocd)
  {
    SignatureFound(buf, |buf| - END_SIZE, ScanStart(buf), eocd);
  }

  /** Unzipping an archive whose comment is clean gives exactly the files of its entries, or the right error. */
  lemma UnzipReadsArchive(platform: Platform, buf: Bytes, es: seq<Entry>, offsets: seq<nat>, end: EndRecord)
    requires IsArchive(buf, es, offsets, end)
    requires CommentIsClean(buf, |buf| - end.Size())
    ensures UnzipSpec(platform, buf) == NotEmpty(AddAll(map[], AllDescribed(platform, es)))
  {
    var eocd := FindEndRecord(buf, end);
    UnzipFromEndRecord(platform, buf, eocd, end.count, end.offset);
    DirectoryReads(platform, buf, end.offset, es, offsets);
  }

  lemma FindEndRecord(buf: Bytes, end: EndRecord) returns (eocd: nat)
    requires Closes(buf, end) && CommentIsClean(buf, |buf| - end.Size())
    ensures Scan(buf, |buf| - END_SIZE, ScanStart(buf)) == Some(eocd)
    ensures U16(buf, eocd + 10) == end.count < 0xFFFF && U32(buf, eocd + 16) == end.offset < 0xFFFF_FFFF
  {
    eocd := |buf| - end.Size();
    EndRecordReads(buf, eocd, end);
    EndRecordFoundExactly(buf, eocd);
  }

  /** An end record in the comment hides the directory: when it says there are no files, none are found. */
  lemma CommentHidesFiles(platform: Platform, buf: Bytes, es: seq<Entry>, offsets: seq<nat>, end: EndRecord,
                          hidden: EndRecord)
    requires IsArchive(buf, es, offsets, end)
    requires hidden.Valid() && hidden.count == 0 && hidden.comment == [] && end.comment == hidden.Encoded()
    ensures UnzipSpec(platform, buf) == Err(NoFiles)
  {
    EndRecordReads(buf, |buf| - end.Size(), end);
    EncodedSize(hidden);
    var eocd := FindEndRecord(buf, hidden);
    UnzipFromEndRecord(platform, buf, eocd, 0, hidden.offset);
  }

  // ----- What the files are -----

  /** Every file of the archive is stored without compression. */
  ghost predicate Stored(platform: Platform, es: seq<Entry>) {
    forall i :: 0 <= i < |es| && IsFile(platform, es[i]) ==> es[i].id == STORE
  }

  /** No two files share a base name. */
  ghost predicate Distinct(platform: Platform, es: seq<Entry>) {
    forall i, j :: 0 <= i < j < |es| && IsFile(platform, es[i]) && IsFile(platform, es[j]) ==>
      BaseOf(platform, es[i]) != BaseOf(platform, es[j])
  }

  /** `files` has every file of `es` under its base name. */
  ghost predicate HasFiles(platform: Platform, es: seq<Entry>, files: map<string, Bytes>) {
    forall i :: 0 <= i < |es| && IsFile(platform, es[i]) ==>
      BaseOf(platform, es[i]) in files && files[BaseOf(platform, es[i])] == es[i].payload
  }

  ghost predicate HasOnlyFiles(platform: Platform, es: seq<Entry>, files: map<string, Bytes>) {
    forall base :: base in files ==>
      exists i :: 0 <= i < |es| && IsFile(platform, es[i]) && BaseOf(platform, es[i]) == base
  }

  /** `files` maps the base name of every file of `es` to its contents, and nothing else. */
  ghost predicate IsFileMap(platform: Platform, es: seq<Entry>, files: map<string, Bytes>) {
    HasFiles(platform, es, files) && HasOnlyFiles(platform, es, files)
  }

  /** Stored files are all added exactly when their base names are distinct. */
  lemma {:induction false} AddAllStored(platform: Platform, es: seq<Entry>, n: nat, out: map<string, Bytes>)
    requires n <= |es| && Stored(platform, es)
    requires Distinct(platform, es[..n]) && IsFileMap(platform, es[..n], out)
    ensures var r := AddAll(out, AllDescribed(platform, es)[n..]);
            && (r.Ok? <==> Distinct(platform, es))
            && (r.Ok? ==> IsFileMap(platform, es, r.files))
    decreases |es| - n
  {
    if n == |es| {
      assert es[..n] == es;
    } else {
      var found := AllDescribed(platform, es);
      assert found[n..][0] == Described(platform, es[n]) && found[n..][1..] == found[n + 1..];
      AddStored(platform, es, n, out);
      var r := Add(out, Described(platform, es[n]));
      if r.Ok? {
        AddAllStored(platform, es, n + 1, r.files);
      }
    }
  }

  lemma AddStored(platform: Platform, es: seq<Entry>, n: nat, out: map<string, Bytes>)
    requires n < |es| && Stored(platform, es)
    requires Distinct(platform, es[..n]) && IsFileMap(platform, es[..n], out)
    ensures var r := Add(out, Described(platform, es[n]));
            if r.Ok? then Distinct(platform, es[..n + 1]) && IsFileMap(platform, es[..n + 1], r.files)
            else !Distinct(platform, es)
  {
    var e := es[n];
    if IsFile(platform, e) && BaseOf(platform, e) in out {
      var i :| 0 <= i < n && IsFile(platform, es[..n][i]) && BaseOf(platform, es[..n][i]) == BaseOf(platform, e);
      assert es[i] == es[..n][i];
    } else {
      assert es[..n + 1] == es[..n] + [e];
      DistinctNext(platform, es[..n], e, out);
      FileMapNext(platform, es[..n], e, out);
    }
  }

  lemma DistinctNext(platform: Platform, es: seq<Entry>, e: Entry, out: map<string, Bytes>)
    requires Distinct(platform, es) && IsFileMap(platform, es, out)
    requires IsFile(platform, e) ==> BaseOf(platform, e) !in out
    ensures Distinct(platform, es + [e])
  {
  }

  lemma FileMapNext(platform: Platform, es: seq<Entry>, e: Entry, out: map<string, Bytes>)
    requires IsFileMap(platform, es, out)
    requires IsFile(platform, e) ==> BaseOf(platform, e) !in out && e.id == STORE
    ensures var r := Add(out, Described(platform, e)); r.Ok? && IsFileMap(platform, es + [e], r.files)
  {
    var base := BaseOf(platform, e);
    if IsFile(platform, e) {
      assert Described(platform, e) == File(base, Ok(map[base := e.payload]));
      FileMapWith(platform, es, e, out, out + map[base := e.payload]);
    } else {
      FileMapWith(platform, es, e, out, out);
    }
  }

  lemma FileMapWith(platform: Platform, es: seq<Entry>, e: Entry, out: map<string, Bytes>, files: map<string, Bytes>)
    requires IsFileMap(platform, es, out)
    requires if IsFile(platform, e)
             then BaseOf(platform, e) !in out && files == out + map[BaseOf(platform, e) := e.payload]
             else files == out
    ensures IsFileMap(platform, es + [e], files)
  {
    var all := es + [e];
    assert HasFiles(platform, all, files);
    forall b | b in files
      ensures exists i :: 0 <= i < |all| && IsFile(platform, all[i]) && BaseOf(platform, all[i]) == b
    {
      if b in out {
        var i :| 0 <= i < |es| && IsFile(platform, es[i]) && BaseOf(platform, es[i]) == b;
        assert all[i] == es[i];
      } else {
        assert all[|es|] == e;
      }
    }
  }

  /**
   An archive of stored files unzips if and only if it has a file and the base names of its files are distinct,
   and then to exactly the map from base names to contents, directories left out.
   */
  lemma StoredArchiveUnzips(platform: Platform, buf: Bytes, es: seq<Entry>, offsets: seq<nat>, end: EndRecord)
    requires IsArchive(buf, es, offsets, end) && Stored(platform, es)
    requires CommentIsClean(buf, |buf| - end.Size())
    ensures var r := UnzipSpec(platform, buf);
            && (r.Ok? <==> Distinct(platform, es) && exists i :: 0 <= i < |es| && IsFile(platform, es[i]))
            && (r.Ok? ==> IsFileMap(platform, es, r.files))
  {
    UnzipReadsArchive(platform, buf, es, offsets, end);
    AddAllStored(platform, es, 0, map[]);
    assert AllDescribed(platform, es)[0..] == AllDescribed(platform, es);
  }

  /** A file named `base` in any directory is found under its base name when the archive unzips. */
  lemma StoredFileIsFound(platform: Platform, buf: Bytes, es: seq<Entry>, offsets: seq<nat>, end: EndRecord,
                          i: nat, dir: string, c: char, base: string)
    requires IsArchive(buf, es, offsets, end) && Stored(platform, es)
    requires CommentIsClean(buf, |buf| - end.Size())
    requires i < |es| && base != "" && forall k :: 0 <= k < |base| ==> base[k] != '/' && base[k] != '\\'
    requires c == '/' || c == '\\'
    requires platform.decodeName(es[i].name) == base || platform.decodeName(es[i].name) == dir + [c] + base
    ensures var r := UnzipSpec(platform, buf);
            r.Ok? ==> base in r.files && r.files[base] == es[i].payload
  {
    StoredArchiveUnzips(platform, buf, es, offsets, end);
    BaseNameExactly(dir, c, base);
  }

  // ----- Archives written front to back -----

  predicate AllValid(es: seq<Entry>) {
    forall i :: 0 <= i < |es| ==> es[i].Valid()
  }

  function Concat(parts: seq<Bytes>): Bytes {
    if parts == [] then [] else Concat(parts[..|parts| - 1]) + parts[|parts| - 1]
  }

  lemma {:induction false} PrefixFits(parts: seq<Bytes>, i: nat)
    requires i <= |parts|
    ensures |Concat(parts[..i])| <= |Concat(parts)|
    decreases |parts|
  {
    if i == |parts| {
      assert parts[..i] == parts;
    } else {
      var init := parts[..|parts| - 1];
      assert init[..i] == parts[..i];
      PrefixFits(init, i);
    }
  }

  /** Each part stands behind those before it. */
  lemma {:induction false} PartAt(buf: Bytes, pos: nat, parts: seq<Bytes>, i: nat)
    requires i < |parts| && At(buf, pos, Concat(parts))
    ensures At(buf, pos + |Concat(parts[..i])|, parts[i])
    decreases |parts|
  {
    var init := parts[..|parts| - 1];
    AtSplit(buf, pos, Concat(init), parts[|parts| - 1]);
    if i < |init| {
      assert init[..i] == parts[..i];
      PartAt(buf, pos, init, i);
    }
  }

  function LocalRecords(es: seq<Entry>): (parts: seq<Bytes>)
    requires AllValid(es)
    ensures |parts| == |es|
  {
    seq(|es|, i requires 0 <= i < |es| => LocalRecord(es[i]))
  }

  /** Where the local records start when they are written from the start of the file. */
  function Offsets(es: seq<Entry>): (offsets: seq<nat>)
    requires AllValid(es)
    ensures |offsets| == |es|
  {
    seq(|es|, i requires 0 <= i < |es| => |Concat(LocalRecords(es)[..i])|)
  }

  predicate Addressable(offsets: seq<nat>) {
    forall i :: 0 <= i < |offsets| ==> offsets[i] < 0x1_0000_0000
  }

  function CentralRecords(es: seq<Entry>, offsets: seq<nat>): (parts: seq<Bytes>)
    requires AllValid(es) && |offsets| == |es| && Addressable(offsets)
    ensures |parts| == |es|
  {
    seq(|es|, i requires 0 <= i < |es| => CentralRecord(es[i], offsets[i]))
  }

  predicate Buildable(es: seq<Entry>, disks: Bytes, directorySize: Bytes) {
    && AllValid(es) && |es| < 0xFFFF && |Concat(LocalRecords(es))| < 0xFFFF_FFFF
    && |disks| == 6 && |directorySize| == 4
  }

  lemma OffsetsFit(es: seq<Entry>)
    requires AllValid(es) && |Concat(LocalRecords(es))| < 0xFFFF_FFFF
    ensures Addressable(Offsets(es))
  {
    forall i | 0 <= i < |es|
      ensures Offsets(es)[i] < 0x1_0000_0000
    {
      PrefixFits(LocalRecords(es), i);
    }
  }

  /** The end record of an archive without a comment. */
  function Closing(es: seq<Entry>, disks: Bytes, directorySize: Bytes): EndRecord
    requires AllValid(es)
  {
    EndRecord(disks, |es|, directorySize, |Concat(LocalRecords(es))|, [])
  }

  /** Local records, directory and end record. */
  function Build(es: seq<Entry>, disks: Bytes, directorySize: Bytes): Bytes
    requires Buildable(es, disks, directorySize)
  {
    OffsetsFit(es);
    Concat(LocalRecords(es)) + (Concat(CentralRecords(es, Offsets(es))) + Closing(es, disks, directorySize).Encoded())
  }

  lemma {:induction false} EntryPosIs(es: seq<Entry>, offsets: seq<nat>, pos: nat, i: nat)
    requires AllValid(es) && |offsets| == |es| && Addressable(offsets) && i <= |es|
    ensures EntryPos(es, pos, i) == pos + |Concat(CentralRecords(es, offsets)[..i])|
    decreases i
  {
    if i > 0 {
      EntryPosIs(es, offsets, pos, i - 1);
      var parts := CentralRecords(es, offsets);
      assert parts[..i][..i - 1] == parts[..i - 1];
      CentralRecordSize(es[i - 1], offsets[i - 1]);
    }
  }

  lemma BuiltLocal(buf: Bytes, es: seq<Entry>, i: nat)
    requires AllValid(es) && i < |es| && At(buf, 0, Concat(LocalRecords(es)))
    ensures At(buf, Offsets(es)[i], LocalRecord(es[i]))
  {
    PartAt(buf, 0, LocalRecords(es), i);
  }

  lemma BuiltCentral(buf: Bytes, pos: nat, es: seq<Entry>, offsets: seq<nat>, i: nat)
    requires AllValid(es) && |offsets| == |es| && Addressable(offsets) && i < |es|
    requires At(buf, pos, Concat(CentralRecords(es, offsets)))
    ensures At(buf, EntryPos(es, pos, i), CentralRecord(es[i], offsets[i]))
  {
    PartAt(buf, pos, CentralRecords(es, offsets), i);
    EntryPosIs(es, offsets, pos, i);
  }

  lemma BuiltEntry(buf: Bytes, pos: nat, es: seq<Entry>, offsets: seq<nat>, i: nat)
    requires AllValid(es) && offsets == Offsets(es) && Addressable(offsets) && i < |es|
    requires At(buf, 0, Concat(LocalRecords(es))) && At(buf, pos, Concat(CentralRecords(es, offsets)))
    ensures HasEntry(buf, EntryPos(es, pos, i), es[i], offsets[i])
  {
    BuiltLocal(buf, es, i);
    BuiltCentral(buf, pos, es, offsets, i);
  }

  lemma BuiltDirectory(buf: Bytes, pos: nat, es: seq<Entry>, offsets: seq<nat>)
    requires AllValid(es) && offsets == Offsets(es) && Addressable(offsets)
    requires At(buf, 0, Concat(LocalRecords(es))) && At(buf, pos, Concat(CentralRecords(es, offsets)))
    ensures Directory(buf, pos, es, offsets)
  {
    forall i | 0 <= i < |es|
      ensures HasEntry(buf, EntryPos(es, pos, i), es[i], offsets[i])
    {
      BuiltEntry(buf, pos, es, offsets, i);
    }
  }

  /** Three parts that make up a file. */
  lemma ThreeParts(buf: Bytes, a: Bytes, b: Bytes, c: Bytes)
    requires buf == a + (b + c)
    ensures At(buf, 0, a) && At(buf, |a|, b) && |c| <= |buf| && At(buf, |buf| - |c|, c)
  {
  }

  lemma BuiltIsArchive(es: seq<Entry>, disks: Bytes, directorySize: Bytes)
    requires Buildable(es, disks, directorySize)
    ensures var buf := Build(es, disks, directorySize);
            var end := Closing(es, disks, directorySize);
            IsArchive(buf, es, Offsets(es), end) && CommentIsClean(buf, |buf| - end.Size())
  {
    OffsetsFit(es);
    var end := Closing(es, disks, directorySize);
    var locals, centrals := Concat(LocalRecords(es)), Concat(CentralRecords(es, Offsets(es)));
    var buf := Build(es, disks, directorySize);
    EncodedSize(end);
    ThreeParts(buf, locals, centrals, end.Encoded());
    BuiltDirectory(buf, |locals|, es, Offsets(es));
  }

  /** Round trip: unzipping what was zipped gives the files back. */
  lemma UnzipBuilt(platform: Platform, es: seq<Entry>, disks: Bytes, directorySize: Bytes)
    requires Buildable(es, disks, directorySize) && Stored(platform, es) && Distinct(platform, es)
    requires exists i :: 0 <= i < |es| && IsFile(platform, es[i])
    ensures var r := UnzipSpec(platform, Build(es, disks, directorySize));
            r.Ok? && IsFileMap(platform, es, r.files)
  {
    var buf := Build(es, disks, directorySize);
    BuiltIsArchive(es, disks, directorySize);
    StoredArchiveUnzips(platform, buf, es, Offsets(es), Closing(es, disks, directorySize));
  }
}
