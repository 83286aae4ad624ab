/** EXIF extraction and orientation patching from `convert.rs`: choosing the EXIF payload out of a container's
    segments or chunks, resetting the orientation tag of a TIFF directory in
    place, and splicing the patched payload back into a JPEG's segment list.

    An EXIF payload is a byte string that starts with the 6-byte marker
    `Exif\0\0`; the TIFF structure follows it (TIFF Revision 6.0, Section 2):
    a 2-byte byte-order mark (`II` little-endian, anything else big-endian),
    2 bytes of magic, and the 4-byte offset of IFD0 from the start of the TIFF
    data. IFD0 is a 2-byte entry count followed by 12-byte entries whose first
    two bytes are the tag and whose bytes 8-9 hold a SHORT value. Positions
    below are absolute positions in the payload, so TIFF offset `x` is payload
    position `6 + x`. */
module Exif {
  import opened Common

  const ExifMarker: seq<byte> := [0x45, 0x78, 0x69, 0x66, 0, 0]
  /** TIFF tag 0x0112, Orientation (TIFF 6.0, Section 8). */
  const OrientationTag: nat := 0x0112
  /** The APP1 marker under which JPEG files carry EXIF. */
  const App1: byte := 0xE1
  /** PNG chunk type `eXIf`. */
  const ExifChunkKind: seq<byte> := [0x65, 0x58, 0x49, 0x66]

  predicate IsExifPayload(b: seq<byte>) {
    StartsWith(b, ExifMarker)
  }

  // ------------------------------------------------ TIFF accessors

  function ReadU16(s: seq<byte>, at: nat, le: bool): (v: nat)
    requires at + 2 <= |s|
    ensures v < 0x1_0000
  {
    var b0, b1 := s[at] as int, s[at + 1] as int;
    if le then b0 + 256 * b1 else 256 * b0 + b1
  }

  function ReadU32(s: seq<byte>, at: nat, le: bool): nat
    requires at + 4 <= |s|
  {
    var b0, b1, b2, b3 := s[at] as int, s[at + 1] as int, s[at + 2] as int, s[at + 3] as int;
    if le then b0 + 256 * b1 + 65536 * b2 + 16777216 * b3
    else 16777216 * b0 + 65536 * b1 + 256 * b2 + b3
  }

  /** The TIFF data starts with `II`. */
  predicate LittleEndian(s: seq<byte>)
    requires 8 <= |s|
  {
    s[6] == 0x49 && s[7] == 0x49
  }

  /** The SHORT value 1 in the given byte order. */
  function OneIn(le: bool): (b: seq<byte>)
    ensures |b| == 2
  {
    if le then [1, 0] else [0, 1]
  }

  /** The tag of entry `k` of a directory whose entries start at `base`. */
  function EntryTag(s: seq<byte>, le: bool, base: nat, k: nat): nat
    requires base + 12 * k + 2 <= |s|
  {
    ReadU16(s, base + 12 * k, le)
  }

  /** Index of the first directory entry, among entries `from` to `count - 1`
      of the directory whose entries start at `base`, that is complete (all 12
      bytes inside `s`) and whose tag is Orientation. The walk stops at the
      first entry that does not fit. */
  function FindOrientationEntry(s: seq<byte>, le: bool, base: nat, from: nat, count: nat): (r: Option<nat>)
    ensures r.Some? ==> from <= r.value < count && base + 12 * r.value + 12 <= |s|
    ensures r.Some? ==> EntryTag(s, le, base, r.value) == OrientationTag
    ensures r.Some? ==> forall k :: from <= k < r.value ==> EntryTag(s, le, base, k) != OrientationTag
    ensures r.None? ==>
      forall k :: from <= k < count && base + 12 * k + 12 <= |s| ==> EntryTag(s, le, base, k) != OrientationTag
    decreases count - from
  {
    if from >= count || base + 12 * from + 12 > |s| then None
    else if EntryTag(s, le, base, from) == OrientationTag then Some(from)
    else FindOrientationEntry(s, le, base, from + 1, count)
  }

  /** Position of IFD0's entry count, when the payload carries the marker, is
      at least 18 bytes long, and its IFD0 offset leaves room for the count. */
  function IfdStart(s: seq<byte>): (r: Option<nat>)
    ensures r.Some? ==> IsExifPayload(s) && 18 <= |s| && 6 <= r.value && r.value + 2 <= |s|
  {
    if !IsExifPayload(s) || |s| < 18 then None
    else
      var offset := ReadU32(s, 10, LittleEndian(s));
      if offset + 2 > |s| - 6 then None else Some(6 + offset)
  }

  /** Position of the IFD0 entry whose value the patch overwrites, if any:
      `None` when there is no IFD0 count to read, or no Orientation entry
      among the complete entries counted. */
  function OrientationEntry(s: seq<byte>): (r: Option<nat>)
    ensures r.Some? ==> IfdStart(s).Some? && IfdStart(s).value + 2 <= r.value && r.value + 12 <= |s|
    ensures r.Some? ==> ReadU16(s, r.value, LittleEndian(s)) == OrientationTag
  {
    match IfdStart(s)
    case None => None
    case Some(c) =>
      var le := LittleEndian(s);
      match FindOrientationEntry(s, le, c + 2, 0, ReadU16(s, c, le))
      case Some(k) => Some(c + 2 + 12 * k)
      case None => None
  }

  /** The payload after the orientation patch: the value of the Orientation
      entry set to 1, or the payload unchanged when there is none. */
  function PatchedOrientation(s: seq<byte>): (r: seq<byte>)
    ensures |r| == |s|
    ensures OrientationEntry(s).None? ==> r == s
  {
    match OrientationEntry(s)
    case None => s
    case Some(e) => s[..e + 8] + OneIn(LittleEndian(s)) + s[e + 10..]
  }

  lemma FindOrientationEntryFirst(s: seq<byte>, le: bool, base: nat, count: nat, i: nat)
    requires i < count && base + 12 * i + 12 <= |s| && EntryTag(s, le, base, i) == OrientationTag
    requires forall k :: 0 <= k < i ==> base + 12 * k + 12 <= |s| && EntryTag(s, le, base, k) != OrientationTag
    ensures FindOrientationEntry(s, le, base, 0, count) == Some(i)
  {
  }

  lemma FindOrientationEntryNone(s: seq<byte>, le: bool, base: nat, count: nat, i: nat)
    requires i <= count && (i == count || base + 12 * i + 12 > |s|)
    requires forall k :: 0 <= k < i ==> base + 12 * k + 12 <= |s| && EntryTag(s, le, base, k) != OrientationTag
    ensures FindOrientationEntry(s, le, base, 0, count) == None
  {
  }

  /** Writes the SHORT value 1 at `at`, in the given byte order. */
  method WriteOne(payload: array<byte>, at: nat, le: bool)
    requires at + 2 <= payload.Length
    modifies payload
    ensures payload[..] == old(payload[..])[..at] + OneIn(le) + old(payload[..])[at + 2..]
  {
    if le {
      payload[at] := 1;
      payload[at + 1] := 0;
    } else {
      payload[at] := 0;
      payload[at + 1] := 1;
    }
  }

  /** The walk over IFD0's entries: `pos` runs over the entries' offsets in
      the TIFF data, stopping at the first entry that does not fit, and the
      index of the first Orientation entry is returned. */
  method ScanEntries(payload: array<byte>, offset: nat, numEntries: nat, isLe: bool) returns (r: Option<nat>)
    ensures r == FindOrientationEntry(payload[..], isLe, 6 + offset + 2, 0, numEntries)
  {
    ghost var s := payload[..];
    ghost var base := 6 + offset + 2;
    var pos := offset + 2;
    var i := 0;
    while i < numEntries
      invariant 0 <= i <= numEntries
      invariant pos == offset + 2 + 12 * i
      invariant forall k :: 0 <= k < i ==> base + 12 * k + 12 <= |s| && EntryTag(s, isLe, base, k) != OrientationTag
    {
      if pos + 12 > payload.Length - 6 {
        FindOrientationEntryNone(s, isLe, base, numEntries, i);
        return None;
      }
      var tag := ReadU16(payload[..], 6 + pos, isLe);
      assert tag == EntryTag(s, isLe, base, i);
      if tag == OrientationTag {
        FindOrientationEntryFirst(s, isLe, base, numEntries, i);
        return Some(i);
      }
      pos := pos + 12;
      i := i + 1;
    }
    FindOrientationEntryNone(s, isLe, base, numEntries, i);
    return None;
  }

  /** Once the marker, the length and the IFD0 offset have been checked, the
      Orientation entry is the one the directory walk finds. */
  lemma EntryPosition(s: seq<byte>, offset: nat, numEntries: nat, isLe: bool)
    requires IsExifPayload(s) && 18 <= |s| && offset + 2 <= |s| - 6
    requires isLe == LittleEndian(s) && offset == ReadU32(s, 10, isLe)
    requires numEntries == ReadU16(s, 6 + offset, isLe)
    ensures IfdStart(s) == Some(6 + offset)
    ensures OrientationEntry(s) == EntryAt(6 + offset, FindOrientationEntry(s, isLe, 6 + offset + 2, 0, numEntries))
  {
    OrientationEntryAt(s, 6 + offset, isLe, numEntries);
  }

  /** `patch_orientation_in_place`. */
  method PatchOrientationInPlace(payload: array<byte>)
    modifies payload
    ensures payload[..] == PatchedOrientation(old(payload[..]))
  {
    var entry, isLe := LocateOrientation(payload);
    if entry.Some? {
      // The value field sits 8 bytes into the entry.
      WriteOne(payload, entry.value + 8, isLe);
      PatchedAt(old(payload[..]), entry.value);
    }
  }

  /** The reading half of the patch: the header checks and the directory
      walk, which give the position of the Orientation entry, if any, and
      the payload's byte order. */
  method LocateOrientation(payload: array<byte>) returns (entry: Option<nat>, isLe: bool)
    ensures entry == OrientationEntry(payload[..])
    ensures entry.Some? ==> isLe == LittleEndian(payload[..])
  {
    ghost var s := payload[..];
    if !StartsWith(payload[..], ExifMarker) || payload.Length < 18 {
      PatchLeavesMalformedAlone(s);
      return None, false;
    }
    isLe := payload[6] == 0x49 && payload[7] == 0x49;
    var offset := ReadU32(payload[..], 10, isLe);
    if offset + 2 > payload.Length - 6 {
      PatchLeavesMalformedAlone(s);
      return None, isLe;
    }
    var numEntries := ReadU16(payload[..], 6 + offset, isLe);
    EntryPosition(s, offset, numEntries, isLe);
    var k := ScanEntries(payload, offset, numEntries, isLe);
    entry := EntryAt(6 + offset, k);
  }

  /** The patch in terms of the entry it finds. */
  lemma PatchedAt(s: seq<byte>, e: nat)
    requires OrientationEntry(s) == Some(e)
    ensures PatchedOrientation(s) == s[..e + 8] + OneIn(LittleEndian(s)) + s[e + 10..]
  {
  }

  // ------------------------------------------------ properties of the patch

  /** The three early exits: no marker, fewer than 18 bytes, or an IFD0 offset
      that leaves no room for the entry count. */
  lemma PatchLeavesMalformedAlone(s: seq<byte>)
    requires !IsExifPayload(s) || |s| < 18 || ReadU32(s, 10, LittleEndian(s)) + 2 > |s| - 6
    ensures IfdStart(s) == None
    ensures PatchedOrientation(s) == s
  {
  }

  /** The patch keeps the length and every byte except the two value bytes of
      the first Orientation entry, which then read 1 in the payload's byte
      order. In particular the marker and the TIFF header survive. */
  lemma PatchFrame(s: seq<byte>)
    ensures |PatchedOrientation(s)| == |s|
    ensures OrientationEntry(s).None? ==> PatchedOrientation(s) == s
    ensures OrientationEntry(s).Some? ==>
      var e := OrientationEntry(s).value;
      var r := PatchedOrientation(s);
      && (forall i :: 0 <= i < |s| && i != e + 8 && i != e + 9 ==> r[i] == s[i])
      && ReadU16(r, e + 8, LittleEndian(s)) == 1
    ensures IsExifPayload(s) ==> IsExifPayload(PatchedOrientation(s))
    ensures 14 <= |s| ==> PatchedOrientation(s)[..14] == s[..14]
  {
    if OrientationEntry(s).Some? {
      var e := OrientationEntry(s).value;
      var r := PatchedOrientation(s);
      assert r[..14] == s[..14] by {
        assert forall i :: 0 <= i < 14 ==> r[i] == s[i];
      }
      assert r[..6] == s[..6] by {
        assert forall i :: 0 <= i < 6 ==> r[i] == s[i];
      }
    }
  }

  /** The entry search only looks at tag bytes: two payloads of equal length
      that agree on them give the same answer. */
  lemma {:induction false} FindOrientationEntryFrame(s: seq<byte>, s': seq<byte>, le: bool, base: nat, from: nat, count: nat)
    requires |s| == |s'|
    requires forall k :: from <= k < count && base + 12 * k + 2 <= |s| ==>
      s[base + 12 * k] == s'[base + 12 * k] && s[base + 12 * k + 1] == s'[base + 12 * k + 1]
    ensures FindOrientationEntry(s, le, base, from, count) == FindOrientationEntry(s', le, base, from, count)
    decreases count - from
  {
    if from < count && base + 12 * from + 12 <= |s| {
      assert EntryTag(s, le, base, from) == EntryTag(s', le, base, from);
      FindOrientationEntryFrame(s, s', le, base, from + 1, count);
    }
  }

  /** Where IFD0 starts depends only on the first 14 bytes and the length. */
  lemma IfdStartFrame(s: seq<byte>, s': seq<byte>)
    requires |s| == |s'| && 14 <= |s| && s[..14] == s'[..14]
    ensures IfdStart(s) == IfdStart(s')
  {
    assert s[..6] == s[..14][..6] && s'[..6] == s'[..14][..6];
    assert forall i :: 6 <= i < 14 ==> s[i] == s[..14][i] == s'[..14][i] == s'[i];
  }

  /** Two payloads that agree on their header, on IFD0's entry count and on
      every counted entry's tag bytes have the same Orientation entry. */
  lemma OrientationEntryFrame(s: seq<byte>, r: seq<byte>)
    requires |s| == |r| && 18 <= |s| && s[..14] == r[..14]
    requires IfdStart(s).Some?
    requires var c := IfdStart(s).value; r[c] == s[c] && r[c + 1] == s[c + 1]
    requires var c := IfdStart(s).value;
      forall k :: 0 <= k < ReadU16(s, c, LittleEndian(s)) && c + 2 + 12 * k + 2 <= |s| ==>
        s[c + 2 + 12 * k] == r[c + 2 + 12 * k] && s[c + 2 + 12 * k + 1] == r[c + 2 + 12 * k + 1]
    ensures OrientationEntry(r) == OrientationEntry(s)
  {
    IfdStartFrame(s, r);
    var c := IfdStart(s).value;
    var le := LittleEndian(s);
    assert LittleEndian(r) == le by {
      assert r[6] == r[..14][6] && s[6] == s[..14][6];
      assert r[7] == r[..14][7] && s[7] == s[..14][7];
    }
    var n := ReadU16(s, c, le);
    assert ReadU16(r, c, le) == n;
    FindOrientationEntryFrame(s, r, le, c + 2, 0, n);
    SameWalkSameEntry(s, r, c, le, n);
  }

  /** Two payloads whose IFD0 starts at the same place, in the same byte
      order, and whose walks agree, have the same Orientation entry. */
  lemma SameWalkSameEntry(s: seq<byte>, r: seq<byte>, c: nat, le: bool, n: nat)
    requires IfdStart(s) == Some(c) && le == LittleEndian(s) && c + 2 <= |s| && n == ReadU16(s, c, le)
    requires IfdStart(r) == Some(c) && le == LittleEndian(r) && c + 2 <= |r| && n == ReadU16(r, c, le)
    requires FindOrientationEntry(s, le, c + 2, 0, n) == FindOrientationEntry(r, le, c + 2, 0, n)
    ensures OrientationEntry(r) == OrientationEntry(s)
  {
    OrientationEntryAt(s, c, le, n);
    OrientationEntryAt(r, c, le, n);
  }

  /** The Orientation entry in terms of the directory walk. */
  lemma OrientationEntryAt(s: seq<byte>, c: nat, le: bool, n: nat)
    requires IfdStart(s) == Some(c) && le == LittleEndian(s) && c + 2 <= |s| && n == ReadU16(s, c, le)
    ensures OrientationEntry(s) == EntryAt(c, FindOrientationEntry(s, le, c + 2, 0, n))
  {
  }

  /** The position of entry `k` of IFD0, when there is one. */
  function EntryAt(c: nat, k: Option<nat>): Option<nat> {
    match k
    case Some(k) => Some(c + 2 + 12 * k)
    case None => None
  }

  /** The patch writes no header byte, no byte of IFD0's entry count and no
      byte of any counted entry's tag. */
  lemma PatchKeepsDirectory(s: seq<byte>)
    requires OrientationEntry(s).Some?
    ensures var r := PatchedOrientation(s);
      && |s| == |r| && 18 <= |s| && s[..14] == r[..14]
      && IfdStart(s).Some?
      && (var c := IfdStart(s).value; r[c] == s[c] && r[c + 1] == s[c + 1])
      && (var c := IfdStart(s).value;
          forall k :: 0 <= k < ReadU16(s, c, LittleEndian(s)) && c + 2 + 12 * k + 2 <= |s| ==>
            s[c + 2 + 12 * k] == r[c + 2 + 12 * k] && s[c + 2 + 12 * k + 1] == r[c + 2 + 12 * k + 1])
  {
    PatchFrame(s);
    var e := OrientationEntry(s).value;
    var c := IfdStart(s).value;
    var base := c + 2;
    var count := ReadU16(s, c, LittleEndian(s));
    var k0 := FindOrientationEntry(s, LittleEndian(s), base, 0, count).value;
    assert e == base + 12 * k0;
  }

  /** Patching twice gives the same bytes as patching once: the bytes the patch
      writes are neither header bytes, nor the entry count, nor any entry's
      tag, so the second walk finds the same entry and writes what is there. */
  lemma PatchIdempotent(s: seq<byte>)
    ensures PatchedOrientation(PatchedOrientation(s)) == PatchedOrientation(s)
  {
    if OrientationEntry(s).Some? {
      var r := PatchedOrientation(s);
      PatchKeepsDirectory(s);
      OrientationEntryFrame(s, r);
      PatchFrame(s);
      assert LittleEndian(r) == LittleEndian(s) by {
        assert r[6] == r[..14][6] && s[6] == s[..14][6];
        assert r[7] == r[..14][7] && s[7] == s[..14][7];
      }
      PatchKeepsNormalOrientation(r);
    }
  }

  /** A payload whose Orientation already reads 1 is left byte-for-byte alone. */
  lemma PatchKeepsNormalOrientation(s: seq<byte>)
    requires OrientationEntry(s).Some?
    requires ReadU16(s, OrientationEntry(s).value + 8, LittleEndian(s)) == 1
    ensures PatchedOrientation(s) == s
  {
    var e := OrientationEntry(s).value;
    ReadOne(s, e + 8, LittleEndian(s));
    PatchedAt(s, e);
    assert s[..e + 8] + s[e + 8..e + 10] + s[e + 10..] == s;
  }

  /** The only two bytes that read as 1 are the encoding of 1. */
  lemma ReadOne(s: seq<byte>, at: nat, le: bool)
    requires at + 2 <= |s| && ReadU16(s, at, le) == 1
    ensures s[at..at + 2] == OneIn(le)
  {
    var b0, b1 := s[at] as int, s[at + 1] as int;
    if le {
      assert b0 + 256 * b1 == 1;
      assert b1 == 0 && b0 == 1;
    } else {
      assert 256 * b0 + b1 == 1;
      assert b0 == 0 && b1 == 1;
    }
  }

  // ------------------------------------------------ extraction

  /** A JPEG marker segment: its marker byte and its payload. */
  datatype JpegSegment = JpegSegment(marker: byte, contents: seq<byte>)

  /** A PNG chunk: its 4-byte type and its data. */
  datatype PngChunk = PngChunk(kind: seq<byte>, contents: seq<byte>)

  /** What survives of a file's metadata for re-embedding. */
  datatype Metadata = Metadata(exif: Option<seq<byte>>)

  /** The container parsers the extraction tries, in order. Each yields `None`
      when the bytes are not a container of its kind; for WebP, the parser
      yields the contents of the EXIF chunk if there is one. */
  datatype Parsers = Parsers(
    jpeg: seq<byte> -> Option<seq<JpegSegment>>,
    webp: seq<byte> -> Option<Option<seq<byte>>>,
    png: seq<byte> -> Option<seq<PngChunk>>)

  /** The payload with the marker put in front when it is missing. */
  function WithMarker(b: seq<byte>): (r: seq<byte>)
    ensures IsExifPayload(r)
    ensures IsExifPayload(b) ==> r == b
    ensures !IsExifPayload(b) ==> r == ExifMarker + b
  {
    if IsExifPayload(b) then b else ExifMarker + b
  }

  /** Index of the last segment whose contents start with the marker. */
  function LastExifSegment(segments: seq<JpegSegment>): (r: Option<nat>)
    ensures r.Some? ==> r.value < |segments| && IsExifPayload(segments[r.value].contents)
    ensures r.Some? ==> forall j :: r.value < j < |segments| ==> !IsExifPayload(segments[j].contents)
    ensures r.None? ==> forall i :: 0 <= i < |segments| ==> !IsExifPayload(segments[i].contents)
  {
    if segments == [] then None
    else if IsExifPayload(segments[|segments| - 1].contents) then Some(|segments| - 1)
    else LastExifSegment(segments[..|segments| - 1])
  }

  /** Index of the last `eXIf` chunk. */
  function LastExifChunk(chunks: seq<PngChunk>): (r: Option<nat>)
    ensures r.Some? ==> r.value < |chunks| && chunks[r.value].kind == ExifChunkKind
    ensures r.Some? ==> forall j :: r.value < j < |chunks| ==> chunks[j].kind != ExifChunkKind
    ensures r.None? ==> forall i :: 0 <= i < |chunks| ==> chunks[i].kind != ExifChunkKind
  {
    if chunks == [] then None
    else if chunks[|chunks| - 1].kind == ExifChunkKind then Some(|chunks| - 1)
    else LastExifChunk(chunks[..|chunks| - 1])
  }

  /** What the JPEG scan keeps: the last EXIF segment's contents. */
  function JpegExif(segments: seq<JpegSegment>): Option<seq<byte>> {
    match LastExifSegment(segments)
    case Some(i) => Some(segments[i].contents)
    case None => None
  }

  /** What the PNG scan keeps: the last `eXIf` chunk's data, marker added. */
  function PngExif(chunks: seq<PngChunk>): Option<seq<byte>> {
    match LastExifChunk(chunks)
    case Some(i) => Some(WithMarker(chunks[i].contents))
    case None => None
  }

  /** The EXIF payload the extraction selects from a file's bytes (`None` when
      the file could not be read): the first container kind that parses
      decides, in the order JPEG, WebP, PNG. */
  function SelectedExif(file: Option<seq<byte>>, parsers: Parsers): (r: Option<seq<byte>>)
    ensures r.Some? ==> file.Some? && IsExifPayload(r.value)
  {
    match file
    case None => None
    case Some(bytes) =>
      if parsers.jpeg(bytes).Some? then JpegExif(parsers.jpeg(bytes).value)
      else if parsers.webp(bytes).Some? then
        (match parsers.webp(bytes).value
         case Some(e) => Some(WithMarker(e))
         case None => None)
      else if parsers.png(bytes).Some? then PngExif(parsers.png(bytes).value)
      else None
  }

  /** `extract_metadata`: read the file, try the containers in order, and keep
      the last EXIF segment (JPEG), the EXIF chunk (WebP) or the last `eXIf`
      chunk (PNG), adding the marker where it is missing. */
  method ExtractMetadata(file: Option<seq<byte>>, parsers: Parsers) returns (m: Option<Metadata>)
    ensures m.None? <==> SelectedExif(file, parsers).None?
    ensures m.Some? ==> m.value.exif == SelectedExif(file, parsers)
  {
    if file.None? {
      return None;
    }
    var bytes := file.value;
    var exif: Option<seq<byte>> := None;
    var jpeg := parsers.jpeg(bytes);
    if jpeg.Some? {
      var segments := jpeg.value;
      var i := 0;
      while i < |segments|
        invariant 0 <= i <= |segments|
        invariant exif == JpegExif(segments[..i])
      {
        if StartsWith(segments[i].contents, ExifMarker) {
          exif := Some(segments[i].contents);
        }
        assert segments[..i + 1][..i] == segments[..i];
        i := i + 1;
      }
      assert segments[..i] == segments;
    } else {
      var webp := parsers.webp(bytes);
      if webp.Some? {
        if webp.value.Some? {
          var e := webp.value.value;
          var v := if StartsWith(e, ExifMarker) then e else ExifMarker + e;
          exif := Some(v);
        }
      } else {
        var png := parsers.png(bytes);
        if png.Some? {
          var chunks := png.value;
          var i := 0;
          while i < |chunks|
            invariant 0 <= i <= |chunks|
            invariant exif == PngExif(chunks[..i])
          {
            if chunks[i].kind == ExifChunkKind {
              var contents := chunks[i].contents;
              exif := Some(if StartsWith(contents, ExifMarker) then contents else ExifMarker + contents);
            }
            assert chunks[..i + 1][..i] == chunks[..i];
            i := i + 1;
          }
          assert chunks[..i] == chunks;
        }
      }
    }
    m := if exif.Some? then Some(Metadata(exif)) else None;
  }

  // ------------------------------------------------ re-embedding in JPEG

  /** The segments whose contents do not start with the marker, in order
      (`retain`). */
  function WithoutExifSegments(segments: seq<JpegSegment>): (r: seq<JpegSegment>)
    ensures |r| <= |segments|
    ensures forall i :: 0 <= i < |r| ==> !IsExifPayload(r[i].contents)
    ensures forall x :: x in r <==> x in segments && !IsExifPayload(x.contents)
  {
    if segments == [] then []
    else
      var last := segments[|segments| - 1];
      WithoutExifSegments(segments[..|segments| - 1]) + (if IsExifPayload(last.contents) then [] else [last])
  }

  /** Without EXIF segments to drop, `retain` keeps the list as it is. */
  lemma {:induction false} WithoutExifSegmentsKeepsClean(segments: seq<JpegSegment>)
    requires forall i :: 0 <= i < |segments| ==> !IsExifPayload(segments[i].contents)
    ensures WithoutExifSegments(segments) == segments
  {
    if segments != [] {
      WithoutExifSegmentsKeepsClean(segments[..|segments| - 1]);
      assert segments[..|segments| - 1] + [segments[|segments| - 1]] == segments;
    }
  }

  /** Dropping distributes over concatenation, so the kept segments appear in
      their original relative order. */
  lemma {:induction false} WithoutExifSegmentsAppend(a: seq<JpegSegment>, b: seq<JpegSegment>)
    ensures WithoutExifSegments(a + b) == WithoutExifSegments(a) + WithoutExifSegments(b)
    decreases |b|
  {
    if b != [] {
      var b' := b[..|b| - 1];
      assert (a + b)[..|a + b| - 1] == a + b';
      WithoutExifSegmentsAppend(a, b');
    } else {
      assert a + b == a;
    }
  }

  /** The metadata step of `encode_jpeg`: patch a copy of the payload, drop
      every EXIF segment, and insert the patched payload as the first segment
      under the APP1 marker. */
  method EmbedExif(segments: seq<JpegSegment>, rawExif: seq<byte>) returns (r: seq<JpegSegment>)
    ensures r == [JpegSegment(App1, PatchedOrientation(rawExif))] + WithoutExifSegments(segments)
  {
    var payload := new byte[|rawExif|](i requires 0 <= i < |rawExif| => rawExif[i]);
    assert payload[..] == rawExif;
    PatchOrientationInPlace(payload);
    var kept: seq<JpegSegment> := [];
    var i := 0;
    while i < |segments|
      invariant 0 <= i <= |segments|
      invariant kept == WithoutExifSegments(segments[..i])
    {
      if !StartsWith(segments[i].contents, ExifMarker) {
        kept := kept + [segments[i]];
      }
      assert segments[..i + 1][..i] == segments[..i];
      i := i + 1;
    }
    assert segments[..i] == segments;
    r := [JpegSegment(App1, payload[..])] + kept;
  }

  /** After the rewrite, given a marker-carrying payload, exactly one segment
      carries EXIF: the first, under APP1, holding the patched payload; the
      other segments are the original non-EXIF ones in their original order. */
  lemma EmbeddedExifIsUniqueAndFirst(segments: seq<JpegSegment>, rawExif: seq<byte>)
    requires IsExifPayload(rawExif)
    ensures var r := [JpegSegment(App1, PatchedOrientation(rawExif))] + WithoutExifSegments(segments);
      && r[0].marker == App1 && r[0].contents == PatchedOrientation(rawExif)
      && IsExifPayload(r[0].contents)
      && (forall i :: 0 < i < |r| ==> !IsExifPayload(r[i].contents))
      && r[1..] == WithoutExifSegments(segments)
  {
    PatchFrame(rawExif);
  }
}
