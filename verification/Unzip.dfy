/** The ZIP directory reader of the web shell (tiny-unzip.js). */
module Unzip {
  import opened Common

  type Byte = n: int | 0 <= n < 256
  type Bytes = seq<Byte>

  /** What the reader throws. */
  datatype Error =
    | NoEndRecord | Zip64 | BadDirectory | DuplicateName(base: string) | BadLocalHeader(base: string)
    | InflateFailed | UnsupportedMethod(id: nat, base: string) | NoFiles

  datatype Result = Ok(files: map<string, Bytes>) | Err(error: Error)

  /** Platform services: decoding a name, which always succeeds, and inflating raw DEFLATE data. */
  datatype Platform = Platform(decodeName: Bytes -> string, inflate: Bytes -> Option<Bytes>)

  const STORE: nat := 0
  const DEFLATE: nat := 8
  const END_SIGNATURE: nat := 0x06054b50
  const CENTRAL_SIGNATURE: nat := 0x02014b50
  const LOCAL_SIGNATURE: nat := 0x04034b50
  const END_SIZE: nat := 22
  const LONGEST_TAIL: nat := 65557

  /** A byte; past the end `undefined`, which counts as zero in bit operations. */
  function ByteAt(v: Bytes, o: nat): Byte { if o < |v| then v[o] else 0 }

  function U16(v: Bytes, o: nat): nat { ByteAt(v, o) + 0x100 * ByteAt(v, o + 1) }

  function U32(v: Bytes, o: nat): nat {
    ByteAt(v, o) + 0x100 * ByteAt(v, o + 1) + 0x1_0000 * ByteAt(v, o + 2) + 0x100_0000 * ByteAt(v, o + 3)
  }

  /** `subarray`, which stops at the end. */
  function Slice(v: Bytes, from: nat, to: nat): (r: Bytes)
    requires from <= to
    ensures |r| == Min(to, |v|) - Min(from, |v|)
    ensures forall i :: 0 <= i < |r| ==> r[i] == v[from + i]
  {
    if |v| < from then [] else if |v| < to then v[from..] else v[from..to]
  }

  /** The last end record signature from `i` down to `min`. */
  function Scan(buf: Bytes, i: int, min: nat): Option<nat>
    decreases i
  {
    if i < min then None else if U32(buf, i) == END_SIGNATURE then Some(i) else Scan(buf, i - 1, min)
  }

  function ScanStart(buf: Bytes): nat { if |buf| < LONGEST_TAIL then 0 else |buf| - LONGEST_TAIL }

  /** The scan finds the last signature of its range, or nothing exactly when there is none. */
  lemma {:induction false} ScanFindsLast(buf: Bytes, i: int, min: nat)
    ensures match Scan(buf, i, min)
            case Some(p) => min <= p <= i && U32(buf, p) == END_SIGNATURE && NoSignature(buf, p + 1, i)
            case None => NoSignature(buf, min, i)
    decreases i
  {
    if i >= min && U32(buf, i) != END_SIGNATURE {
      ScanFindsLast(buf, i - 1, min);
    }
  }

  /** No end record signature starts from `lo` to `hi`. */
  predicate NoSignature(buf: Bytes, lo: nat, hi: int) {
    forall j: nat :: lo <= j <= hi ==> U32(buf, j) != END_SIGNATURE
  }

  method FindEOCD(buf: Bytes) returns (r: Option<nat>)
    ensures r == Scan(buf, |buf| - END_SIZE, ScanStart(buf))
    ensures match r
            case Some(p) =>
              && p + 22 <= |buf| <= p + 65557 && U32(buf, p) == 0x06054b50
              && forall j: nat :: p < j && j + 22 <= |buf| ==> U32(buf, j) != 0x06054b50
            case None => forall j: nat :: j + 22 <= |buf| <= j + 65557 ==> U32(buf, j) != 0x06054b50
  {
    var min := ScanStart(buf);
    var i := |buf| - END_SIZE;
    ScanFindsLast(buf, i, min);
    while i >= min
      invariant Scan(buf, |buf| - END_SIZE, min) == Scan(buf, i, min)
      decreases i
    {
      if U32(buf, i) == END_SIGNATURE {
        return Some(i);
      }
      i := i - 1;
    }
    return None;
  }

  predicate IsSeparator(c: char) { c == '/' || c == '\\' }

  /** What follows the last separator. */
  function BaseName(path: string): string {
    if path == "" || IsSeparator(path[|path| - 1]) then ""
    else BaseName(path[..|path| - 1]) + [path[|path| - 1]]
  }

  predicate EndsWithSlash(path: string) { path != "" && path[|path| - 1] == '/' }

  /** The base name is what stands behind the last slash or backslash, or the whole path when there is none. */
  lemma {:induction false} BaseNameExactly(dir: string, c: char, base: string)
    requires (c == '/' || c == '\\') && forall i :: 0 <= i < |base| ==> base[i] != '/' && base[i] != '\\'
    ensures BaseName(base) == base && BaseName(dir + [c] + base) == base
    decreases |base|
  {
    var path := dir + [c] + base;
    if base == "" {
      assert path[|path| - 1] == c;
    } else {
      var init := base[..|base| - 1];
      BaseNameExactly(dir, c, init);
      assert base == init + [base[|base| - 1]];
      assert path[..|path| - 1] == dir + [c] + init;
    }
  }

  lemma EndsWithSlashExactly(path: string, c: char)
    ensures EndsWithSlash(path + [c]) <==> c == '/'
    ensures !EndsWithSlash("")
  {
  }

  /** The contents stored in a local record. */
  function Extract(platform: Platform, id: nat, compressed: Bytes, base: string): (r: Result)
    ensures r.Ok? ==> r.files.Keys == {base}
  {
    if id == STORE then Ok(map[base := compressed])
    else if id == DEFLATE then
      (match platform.inflate(compressed)
       case Some(data) => Ok(map[base := data])
       case None => Err(InflateFailed))
    else Err(UnsupportedMethod(id, base))
  }

  /** The position of the directory entry after the one at `pos`. */
  function NextEntry(buf: Bytes, pos: nat): nat {
    pos + 46 + U16(buf, pos + 28) + U16(buf, pos + 30) + U16(buf, pos + 32)
  }

  /** What the reader takes from a directory entry. */
  datatype Header = Header(id: nat, compSize: nat, name: Bytes, localOff: nat)

  function ReadHeader(buf: Bytes, pos: nat): Header {
    Header(U16(buf, pos + 10), U32(buf, pos + 20), Slice(buf, pos + 46, pos + 46 + U16(buf, pos + 28)),
           U32(buf, pos + 42))
  }

  /** The bytes behind a local header. */
  function LocalData(buf: Bytes, localOff: nat, compSize: nat): Bytes {
    var dataStart := localOff + 30 + U16(buf, localOff + 26) + U16(buf, localOff + 28);
    Slice(buf, dataStart, dataStart + compSize)
  }

  /** What a directory entry turns out to be; `data` holds the file alone, or why it cannot be read. */
  datatype Found = NotAnEntry | Skipped | File(base: string, data: Result)

  function Find(platform: Platform, buf: Bytes, pos: nat): Found {
    if U32(buf, pos) != CENTRAL_SIGNATURE then NotAnEntry else FindFile(platform, buf, ReadHeader(buf, pos))
  }

  function FindFile(platform: Platform, buf: Bytes, h: Header): Found {
    var fullName := platform.decodeName(h.name);
    var base := BaseName(fullName);
    if EndsWithSlash(fullName) || base == "" then Skipped
    else if U32(buf, h.localOff) != LOCAL_SIGNATURE then File(base, Err(BadLocalHeader(base)))
    else File(base, Extract(platform, h.id, LocalData(buf, h.localOff, h.compSize), base))
  }

  /** The files seen so far and the one of a directory entry; a repeated name is noticed before its data. */
  function Add(out: map<string, Bytes>, found: Found): Result {
    match found
    case NotAnEntry => Err(BadDirectory)
    case Skipped => Ok(out)
    case File(base, data) =>
      if base in out then Err(DuplicateName(base))
      else if data.Ok? then Ok(out + data.files)
      else data
  }

  /** Position of the `i`-th directory entry when the first one is at `start`. */
  function Position(buf: Bytes, start: nat, i: nat): nat {
    if i == 0 then start else NextEntry(buf, Position(buf, start, i - 1))
  }

  /** The positions of `n` directory entries and of what follows them. */
  function Positions(buf: Bytes, start: nat, n: nat): (positions: seq<nat>)
    ensures |positions| == n + 1
  {
    seq(n + 1, i requires 0 <= i => Position(buf, start, i))
  }

  /** What the `n` directory entries from `start` on turn out to be. */
  function FindAll(platform: Platform, buf: Bytes, start: nat, n: nat): (found: seq<Found>)
    ensures |found| == n
  {
    seq(n, i requires 0 <= i => Find(platform, buf, Position(buf, start, i)))
  }

  /** The files added one after the other, up to the first error. */
  function AddAll(out: map<string, Bytes>, found: seq<Found>): Result
    decreases |found|
  {
    if found == [] then Ok(out) else
    match Add(out, found[0])
    case Err(e) => Err(e)
    case Ok(out') => AddAll(out', found[1..])
  }

  function NotEmpty(r: Result): Result {
    if r == Ok(map[]) then Err(NoFiles) else r
  }

  /** The files of a directory of `entryCount` entries at `cdOff`. */
  function UnzipDirectory(platform: Platform, buf: Bytes, entryCount: nat, cdOff: nat): Result {
    if entryCount == 0xFFFF || cdOff == 0xFFFF_FFFF then Err(Zip64)
    else NotEmpty(AddAll(map[], FindAll(platform, buf, cdOff, entryCount)))
  }

  /** The files of an archive whose end record was found at `eocd`. */
  function UnzipFrom(platform: Platform, buf: Bytes, eocd: Option<nat>): Result {
    match eocd
    case None => Err(NoEndRecord)
    case Some(pos) => UnzipDirectory(platform, buf, U16(buf, pos + 10), U32(buf, pos + 16))
  }

  function UnzipSpec(platform: Platform, buf: Bytes): Result {
    UnzipFrom(platform, buf, Scan(buf, |buf| - END_SIZE, ScanStart(buf)))
  }

  /** The contents of a file from its local record. */
  method LoadData(platform: Platform, buf: Bytes, h: Header, base: string) returns (r: Result)
    ensures r == Extract(platform, h.id, LocalData(buf, h.localOff, h.compSize), base)
  {
    var dataStart := h.localOff + 30 + U16(buf, h.localOff + 26) + U16(buf, h.localOff + 28);
    var compressed := Slice(buf, dataStart, dataStart + h.compSize);
    if h.id == STORE {
      return Ok(map[base := compressed]);
    } else if h.id == DEFLATE {
      var inflated := platform.inflate(compressed);
      if inflated == None {
        return Err(InflateFailed);
      }
      return Ok(map[base := inflated.value]);
    } else {
      return Err(UnsupportedMethod(h.id, base));
    }
  }

  /** What becomes of a directory entry: the checks in order, each with its error. */
  lemma AddExactly(platform: Platform, buf: Bytes, pos: nat, out: map<string, Bytes>)
    ensures var h := ReadHeader(buf, pos);
            var path := platform.decodeName(h.name);
            var base := BaseName(path);
            var data := LocalData(buf, h.localOff, h.compSize);
            Add(out, Find(platform, buf, pos))
            == if U32(buf, pos) != 0x02014b50 then Err(BadDirectory)
               else if (path != "" && path[|path| - 1] == '/') || base == "" then Ok(out)
               else if base in out then Err(DuplicateName(base))
               else if U32(buf, h.localOff) != 0x04034b50 then Err(BadLocalHeader(base))
               else if h.id == 0 then Ok(out[base := data])
               else if h.id != 8 then Err(UnsupportedMethod(h.id, base))
               else if platform.inflate(data) == None then Err(InflateFailed)
               else Ok(out[base := platform.inflate(data).value])
  {
    assert forall d: Bytes :: out + map[BaseName(platform.decodeName(ReadHeader(buf, pos).name)) := d]
                           == out[BaseName(platform.decodeName(ReadHeader(buf, pos).name)) := d];
  }

  lemma UnzipFromEndRecord(platform: Platform, buf: Bytes, eocd: nat, count: nat, offset: nat)
    requires U16(buf, eocd + 10) == count && U32(buf, eocd + 16) == offset
    ensures UnzipFrom(platform, buf, Some(eocd)) == UnzipDirectory(platform, buf, count, offset)
  {
  }

  /** A file without an end record signature where one can start is refused. */
  lemma NoEndRecordRefused(platform: Platform, buf: Bytes)
    requires forall j: nat :: j + 22 <= |buf| <= j + 65557 ==> U32(buf, j) != 0x06054b50
    ensures UnzipSpec(platform, buf) == Err(NoEndRecord)
  {
    NothingFound(buf);
  }

  lemma NothingFound(buf: Bytes)
    requires forall j: nat :: j + 22 <= |buf| <= j + 65557 ==> U32(buf, j) != 0x06054b50
    ensures Scan(buf, |buf| - END_SIZE, ScanStart(buf)) == None
  {
    ScanFindsLast(buf, |buf| - END_SIZE, ScanStart(buf));
  }

  /** The first entry that cannot be added ends the unzipping with its error. */
  lemma {:induction false} FirstErrorWins(out: map<string, Bytes>, found: seq<Found>, i: nat)
    requires i < |found| && AddAll(out, found[..i]).Ok?
    requires Add(AddAll(out, found[..i]).files, found[i]).Err?
    ensures AddAll(out, found) == Add(AddAll(out, found[..i]).files, found[i])
    decreases i
  {
    if i > 0 {
      assert found[..i][0] == found[0] && found[..i][1..] == found[1..][..i - 1];
      FirstErrorWins(Add(out, found[0]).files, found[1..], i - 1);
    }
  }

  /** Archives whose counts or offsets do not fit are refused. */
  lemma Zip64Refused(platform: Platform, buf: Bytes, eocd: nat, count: nat, offset: nat)
    requires Scan(buf, |buf| - END_SIZE, ScanStart(buf)) == Some(eocd)
    requires U16(buf, eocd + 10) == count && U32(buf, eocd + 16) == offset
    requires count == 0xFFFF || offset == 0xFFFF_FFFF
    ensures UnzipSpec(platform, buf) == Err(Zip64)
  {
    UnzipFromEndRecord(platform, buf, eocd, count, offset);
  }

  /** Numbers are little-endian; what is missing counts as zero. */
  lemma NumbersExactly(v: Bytes, o: nat)
    ensures o + 2 <= |v| ==> U16(v, o) == v[o] as int + 0x100 * v[o + 1] as int
    ensures o + 4 <= |v| ==> (
      U32(v, o) == v[o] as int + 0x100 * v[o + 1] as int + 0x1_0000 * v[o + 2] as int + 0x100_0000 * v[o + 3] as int)
    ensures |v| <= o ==> U16(v, o) == U32(v, o) == 0
  {
  }

  /** The body of the entry loop. */
  method AddEntry(platform: Platform, buf: Bytes, pos: nat, out: map<string, Bytes>) returns (r: Result)
    ensures r == Add(out, Find(platform, buf, pos))
  {
    if U32(buf, pos) != CENTRAL_SIGNATURE {
      return Err(BadDirectory);
    }
    var h := ReadHeader(buf, pos);
    var fullName := platform.decodeName(h.name);
    if EndsWithSlash(fullName) {
      return Ok(out);
    }
    var base := BaseName(fullName);
    if base == "" {
      return Ok(out);
    }
    if base in out {
      return Err(DuplicateName(base));
    }
    if U32(buf, h.localOff) != LOCAL_SIGNATURE {
      return Err(BadLocalHeader(base));
    }
    var file := LoadData(platform, buf, h, base);
    if file.Ok? {
      file := Ok(out + file.files);
    }
    return file;
  }

  lemma AddAllFrom(out: map<string, Bytes>, all: seq<Found>, i: nat)
    requires i < |all|
    ensures var r := Add(out, all[i]);
            AddAll(out, all[i..]) == if r.Ok? then AddAll(r.files, all[i + 1..]) else r
  {
    assert all[i..][0] == all[i] && all[i..][1..] == all[i + 1..];
  }

  lemma EntryAt(platform: Platform, buf: Bytes, start: nat, n: nat, i: nat)
    requires i < n
    ensures Positions(buf, start, n)[i + 1] == NextEntry(buf, Positions(buf, start, n)[i])
    ensures FindAll(platform, buf, start, n)[i] == Find(platform, buf, Positions(buf, start, n)[i])
  {
    assert Positions(buf, start, n)[i] == Position(buf, start, i);
  }

  /** One turn of the loop over the directory, whose entries are `all`. */
  method AddNextEntry(platform: Platform, buf: Bytes, ghost start: nat, ghost positions: seq<nat>,
                      ghost all: seq<Found>, ghost i: nat, pos: nat, out: map<string, Bytes>)
    returns (r: Result, next: nat)
    requires positions == Positions(buf, start, |all|) && all == FindAll(platform, buf, start, |all|)
    requires i < |all| && pos == positions[i]
    ensures next == positions[i + 1]
    ensures r == Add(out, all[i])
  {
    EntryAt(platform, buf, start, |all|, i);
    r := AddEntry(platform, buf, pos, out);
    next := NextEntry(buf, pos);
  }

  method YmirUnzip(platform: Platform, buf: Bytes) returns (r: Result)
    ensures r == UnzipSpec(platform, buf)
  {
    var found := FindEOCD(buf);
    if found == None {
      return Err(NoEndRecord);
    }
    r := ReadArchive(platform, buf, found.value);
  }

  method ReadArchive(platform: Platform, buf: Bytes, eocd: nat) returns (r: Result)
    ensures r == UnzipFrom(platform, buf, Some(eocd))
  {
    r := ReadFiles(platform, buf, U16(buf, eocd + 10), U32(buf, eocd + 16));
  }

  method ReadFiles(platform: Platform, buf: Bytes, entryCount: nat, cdOff: nat) returns (r: Result)
    ensures r == UnzipDirectory(platform, buf, entryCount, cdOff)
  {
    if entryCount == 0xFFFF || cdOff == 0xFFFF_FFFF {
      return Err(Zip64);
    }
    r := ReadDirectory(platform, buf, cdOff, entryCount);
    if r == Ok(map[]) {
      return Err(NoFiles);
    }
  }

  /** The loop over the directory. */
  method ReadDirectory(platform: Platform, buf: Bytes, cdOff: nat, entryCount: nat) returns (r: Result)
    ensures r == AddAll(map[], FindAll(platform, buf, cdOff, entryCount))
  {
    ghost var positions, all := Positions(buf, cdOff, entryCount), FindAll(platform, buf, cdOff, entryCount);
    var out: map<string, Bytes> := map[];
    var pos := cdOff;
    var i := 0;
    while i < entryCount
      invariant i <= entryCount
      invariant pos == positions[i]
      invariant AddAll(map[], all) == AddAll(out, all[i..])
    {
      var added, next := AddNextEntry(platform, buf, cdOff, positions, all, i, pos, out);
      AddAllFrom(out, all, i);
      if added.Err? {
        return added;
      }
      out, pos := added.files, next;
      i := i + 1;
    }
    return Ok(out);
  }
}
