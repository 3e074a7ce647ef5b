/**
 The tail of a database file: the structure marker FF FF FF with its edition
 byte and segment count, and the description text in front of it.
 */
module Structure {
  import opened Bits
  import opened Bytes
  import opened Trie

  // Editions (GeoIPDBTypes)
  const COUNTRY_EDITION := 1
  const CITY_EDITION_REV1 := 2
  const REGION_EDITION_REV1 := 3
  const ISP_EDITION := 4
  const ORG_EDITION := 5
  const CITY_EDITION_REV0 := 6
  const REGION_EDITION_REV0 := 7
  const PROXY_EDITION := 8
  const ASNUM_EDITION := 9
  const NETSPEED_EDITION := 10
  const DOMAIN_EDITION := 11
  const COUNTRY_EDITION_V6 := 12
  const LOCATIONA_EDITION := 13
  const ACCURACYRADIUS_EDITION := 14
  const LARGE_COUNTRY_EDITION := 17
  const LARGE_COUNTRY_EDITION_V6 := 18
  const ASNUM_EDITION_V6 := 21
  const ISP_EDITION_V6 := 22
  const ORG_EDITION_V6 := 23
  const DOMAIN_EDITION_V6 := 24
  const REGISTRAR_EDITION := 26
  const REGISTRAR_EDITION_V6 := 27
  const USERTYPE_EDITION := 28
  const USERTYPE_EDITION_V6 := 29
  const CITY_EDITION_REV1_V6 := 30
  const CITY_EDITION_REV0_V6 := 31
  const NETSPEED_EDITION_REV1 := 32
  const NETSPEED_EDITION_REV1_V6 := 33
  const COUNTRYCONF_EDITION := 34
  const CITYCONF_EDITION := 35
  const REGIONCONF_EDITION := 36
  const POSTALCONF_EDITION := 37
  const ACCURACYRADIUS_EDITION_V6 := 38

  const COUNTRY_BEGIN: nat := 16776960
  const LARGE_COUNTRY_BEGIN: nat := 16515072
  const STATE_BEGIN_REV0: nat := 16700000
  const STATE_BEGIN_REV1: nat := 16000000
  const STRUCTURE_INFO_MAX_SIZE: nat := 20
  const DATABASE_INFO_MAX_SIZE: nat := 100
  const STANDARD_RECORD_LENGTH: nat := 3
  const ORG_RECORD_LENGTH: nat := 4
  const SEGMENT_RECORD_LENGTH: nat := 3

  // ---------------------------------------------------------------- backward scans

  /** Three bytes equal to `b` start at `at`. */
  predicate IsRun(file: seq<Byte>, b: Byte, at: int) {
    0 <= at && at + 3 <= |file| && file[at] == b && file[at + 1] == b && file[at + 2] == b
  }

  /** A backward scan hits a run, or uses up its windows, or would step in front of the file. */
  datatype Scan = Hit(at: nat) | Exhausted | OffFront

  /** `s` describes the last run among the `count` windows that start at `start`, `start - 1`, ... */
  ghost predicate IsLastRun(file: seq<Byte>, b: Byte, start: int, count: nat, s: Scan) {
    match s
    case Hit(at) =>
      && start - count < at <= start
      && IsRun(file, b, at)
      && forall k | at < k <= start :: !IsRun(file, b, k)
    case Exhausted =>
      start - count >= 0 && forall k | start - count < k <= start :: !IsRun(file, b, k)
    case OffFront =>
      start - count < 0 && forall k | 0 <= k <= start :: !IsRun(file, b, k)
  }

  function LastRun(file: seq<Byte>, b: Byte, start: int, count: nat): (s: Scan)
    ensures IsLastRun(file, b, start, count, s)
    decreases count, start
  {
    if start < 0 && count > 0 then OffFront
    else if count == 0 then (if start < 0 then OffFront else Exhausted)
    else if IsRun(file, b, start) then Hit(start)
    else LastRun(file, b, start - 1, count - 1)
  }

  lemma LastRunUnique(file: seq<Byte>, b: Byte, start: int, count: nat, s: Scan)
    requires IsLastRun(file, b, start, count, s)
    ensures s == LastRun(file, b, start, count)
  {
  }

  /** The loop that the segment setup has once and the description search
      twice: read a window, stop at a run, else step back by one. */
  method ScanBack(file: seq<Byte>, b: Byte, start: int, count: nat) returns (s: Scan)
    requires start + 3 <= |file| && count > 0
    ensures s == LastRun(file, b, start, count)
  {
    var offset := start;
    for i := 0 to count
      invariant offset == start - i && (i == 0 || offset >= 0)
      invariant LastRun(file, b, start, count) == LastRun(file, b, offset, count - i)
    {
      var window := Pread(file, 3, offset);
      if window.None? || |window.value| != 3 {
        return OffFront;
      }
      if window.value[0] == b && window.value[1] == b && window.value[2] == b {
        return Hit(offset);
      }
      offset := offset - 1;
      if offset < 0 {
        return OffFront;
      }
    }
    return Exhausted;
  }

  // ---------------------------------------------------------------- editions

  /** The edition byte is read into a signed `char`; the numbers
      106..127 are those of files from April 2003 and earlier. */
  function EditionOf(b: Byte): int {
    var c := SignedChar(b);
    if c >= 106 then c - 105 else c
  }

  function SignedChar(b: Byte): int {
    if b < 128 then b else b as int - 256
  }

  /** Editions whose segment count is stored in the file, behind the edition byte. */
  predicate StoresSegments(t: int) {
    || t == CITY_EDITION_REV0 || t == CITY_EDITION_REV1
    || t == ORG_EDITION || t == ORG_EDITION_V6
    || t == DOMAIN_EDITION || t == DOMAIN_EDITION_V6
    || t == ISP_EDITION || t == ISP_EDITION_V6
    || t == REGISTRAR_EDITION || t == REGISTRAR_EDITION_V6
    || t == USERTYPE_EDITION || t == USERTYPE_EDITION_V6
    || t == ASNUM_EDITION || t == ASNUM_EDITION_V6
    || t == NETSPEED_EDITION_REV1 || t == NETSPEED_EDITION_REV1_V6
    || t == LOCATIONA_EDITION
    || t == ACCURACYRADIUS_EDITION || t == ACCURACYRADIUS_EDITION_V6
    || t == CITY_EDITION_REV0_V6 || t == CITY_EDITION_REV1_V6
    || t == CITYCONF_EDITION || t == COUNTRYCONF_EDITION
    || t == REGIONCONF_EDITION || t == POSTALCONF_EDITION
  }

  predicate HasWideRecords(t: int) {
    || t == ORG_EDITION || t == ORG_EDITION_V6
    || t == DOMAIN_EDITION || t == DOMAIN_EDITION_V6
    || t == ISP_EDITION || t == ISP_EDITION_V6
  }

  /** Editions whose answers are the values themselves, with a fixed first value. */
  function FixedSegments(t: int): Option<nat> {
    if t == REGION_EDITION_REV0 then Some(STATE_BEGIN_REV0)
    else if t == REGION_EDITION_REV1 then Some(STATE_BEGIN_REV1)
    else if t == COUNTRY_EDITION || t == PROXY_EDITION || t == NETSPEED_EDITION || t == COUNTRY_EDITION_V6 then
      Some(COUNTRY_BEGIN)
    else if t == LARGE_COUNTRY_EDITION || t == LARGE_COUNTRY_EDITION_V6 then Some(LARGE_COUNTRY_BEGIN)
    else None
  }

  predicate HasContent(t: int) {
    && t != COUNTRY_EDITION && t != PROXY_EDITION && t != NETSPEED_EDITION && t != COUNTRY_EDITION_V6
    && t != LARGE_COUNTRY_EDITION && t != LARGE_COUNTRY_EDITION_V6
    && t != REGION_EDITION_REV0 && t != REGION_EDITION_REV1
  }

  // ---------------------------------------------------------------- layout

  datatype Layout = Layout(databaseType: int, recordLength: nat, segments: nat)

  /** What a file says about itself; None is a file that the library calls corrupt. */
  function LayoutOf(file: seq<Byte>): Option<Layout> {
    match LastRun(file, 255, |file| - 3, STRUCTURE_INFO_MAX_SIZE)
    case OffFront => None
    case Exhausted => Some(Layout(COUNTRY_EDITION, STANDARD_RECORD_LENGTH, COUNTRY_BEGIN))
    case Hit(at) => LayoutBehind(file, at + 3)
  }

  function LayoutBehind(file: seq<Byte>, at: nat): Option<Layout> {
    if at >= |file| then None
    else
      var t := EditionOf(file[at]);
      if StoresSegments(t) then
        if at + 1 + SEGMENT_RECORD_LENGTH > |file| then None
        else Some(Layout(t, if HasWideRecords(t) then ORG_RECORD_LENGTH else STANDARD_RECORD_LENGTH,
                         LittleEndian(file[at + 1..at + 1 + SEGMENT_RECORD_LENGTH])))
      else
        match FixedSegments(t)
        case Some(begin) => Some(Layout(t, STANDARD_RECORD_LENGTH, begin))
        case None => None
  }

  /** How many leading bytes of the file an index cache holds; None is an index that would not fit into the file. */
  function IndexSize(file: seq<Byte>, layout: Layout): Option<nat> {
    if !HasContent(layout.databaseType) then Some(|file|)
    else
      var n := layout.segments * layout.recordLength * 2;
      if n > |file| then None else Some(n)
  }

  function IndexOf(file: seq<Byte>, layout: Layout): Index {
    Index(file, layout.recordLength, layout.segments)
  }

  lemma IndexFits(file: seq<Byte>, layout: Layout)
    requires HasContent(layout.databaseType) && IndexSize(file, layout).Some?
    ensures IndexOf(file, layout).At(layout.segments) == IndexSize(file, layout).value <= |file|
  {
    assert layout.segments * layout.recordLength * 2 == 2 * layout.recordLength * layout.segments;
  }

  /** Every accepted layout has 3- or 4-byte records and a segment bound below 2^24, and
      the editions with content are exactly those that store their segment count. */
  lemma LayoutIsValid(file: seq<Byte>)
    requires LayoutOf(file).Some?
    ensures IndexOf(file, LayoutOf(file).value).Valid()
    ensures var t := LayoutOf(file).value.databaseType; HasContent(t) <==> StoresSegments(t)
    ensures !HasContent(LayoutOf(file).value.databaseType) ==>
              LayoutOf(file).value.segments >= STATE_BEGIN_REV1 && LayoutOf(file).value.recordLength == 3
  {
    Pow2Values();
    match LastRun(file, 255, |file| - 3, STRUCTURE_INFO_MAX_SIZE)
    case Hit(at) =>
      if at + 7 <= |file| {
        LittleEndianBound(file[at + 4..at + 7]);
      }
    case _ =>
  }

  /** Every pair that a walk reads lies inside the file, at an offset that does not wrap
      at 32 bits; it lies inside the index cache exactly when there is a segment. */
  lemma ReadsStayInside(file: seq<Byte>, w: nat, num: nat, nodes: seq<nat>)
    requires LayoutOf(file).Some? && IndexSize(file, LayoutOf(file).value).Some?
    requires IsPath(IndexOf(file, LayoutOf(file).value), w, num, nodes)
    ensures var layout := LayoutOf(file).value;
            var ix := IndexOf(file, layout);
            var at := ix.At(nodes[|nodes| - 1]);
            && at % TWO_TO_THE_32 == at
            && at + ix.PairLength() <= |file|
            && (at + ix.PairLength() <= IndexSize(file, layout).value <==> layout.segments >= 1)
  {
    var ix := IndexOf(file, LayoutOf(file).value);
    assert PathStep(ix, w, num, nodes, |nodes| - 1);
    LayoutIsValid(file);
    NodeOffsetFits(ix, nodes[|nodes| - 1]);
  }

  /** The walk for `num` reads a pair that is not inside the first `size` bytes. */
  ghost predicate ReadsBehind(ix: Index, w: nat, num: nat, size: nat) {
    exists nodes :: IsPath(ix, w, num, nodes) && ix.At(nodes[|nodes| - 1]) + ix.PairLength() > size
  }

  /** A walk reads outside the index cache exactly when the edition has content, the file counts no segments, and
      the file is long enough for a root: the cache is empty then, and the walk is stopped by the file size only. */
  lemma EmptyIndexCache(file: seq<Byte>, w: nat, num: nat)
    requires LayoutOf(file).Some? && IndexSize(file, LayoutOf(file).value).Some? && w >= 1
    ensures var layout := LayoutOf(file).value;
            ReadsBehind(IndexOf(file, layout), w, num, IndexSize(file, layout).value)
            <==> HasContent(layout.databaseType) && layout.segments == 0 && IndexOf(file, layout).HasNode(0)
  {
    var layout := LayoutOf(file).value;
    var ix := IndexOf(file, layout);
    LayoutIsValid(file);
    forall nodes | IsPath(ix, w, num, nodes)
      ensures ix.At(nodes[|nodes| - 1]) + ix.PairLength() <= IndexSize(file, layout).value <==> layout.segments >= 1
      ensures ix.HasNode(0)
    {
      ReadsStayInside(file, w, num, nodes);
      assert PathStep(ix, w, num, nodes, 0);
    }
    if ix.HasNode(0) && layout.segments == 0 {
      assert PathStep(ix, w, num, [0], 0);
      assert IsPath(ix, w, num, [0]);
    }
  }

  /** A file that ends in the marker of the organisation edition and a segment count of zero. */
  function OrgFileWithoutSegments(body: seq<Byte>): seq<Byte> {
    body + [255, 255, 255] + [5, 0, 0, 0]
  }

  lemma OrgFileLayout(body: seq<Byte>)
    ensures LayoutOf(OrgFileWithoutSegments(body)) == Some(Layout(ORG_EDITION, 4, 0))
    ensures IndexSize(OrgFileWithoutSegments(body), Layout(ORG_EDITION, 4, 0)) == Some(0)
  {
    var trailer: seq<Byte> := [5, 0, 0, 0];
    MarkedLayout(body, trailer);
    assert trailer[1..4] == [0, 0, 0];
    assert LittleEndian([0, 0, 0]) == 0;
  }

  /** Such a file opens, and every walk reads behind its empty
      index cache, unless nothing at all precedes the marker. */
  lemma EmptyIndexCacheIsRead(body: seq<Byte>, w: nat, num: nat)
    requires w >= 1
    ensures var file := OrgFileWithoutSegments(body);
            && LayoutOf(file).Some?
            && IndexSize(file, LayoutOf(file).value) == Some(0)
            && (ReadsBehind(IndexOf(file, LayoutOf(file).value), w, num, 0) <==> body != [])
  {
    OrgFileLayout(body);
    EmptyIndexCache(OrgFileWithoutSegments(body), w, num);
  }

  // ---------------------------------------------------------------- description text

  /** The bytes between the last 00 00 00 and the marker (or the end of the file when there is no marker). */
  function DescriptionOf(file: seq<Byte>): Option<seq<Byte>> {
    match LastRun(file, 255, |file| - 3, STRUCTURE_INFO_MAX_SIZE)
    case OffFront => None
    case Exhausted => DescriptionBefore(file, |file|)
    case Hit(at) => DescriptionBefore(file, at)
  }

  function DescriptionBefore(file: seq<Byte>, end: nat): Option<seq<Byte>>
    requires end <= |file|
  {
    match LastRun(file, 0, end - 3, DATABASE_INFO_MAX_SIZE)
    case Hit(at) => Some(file[at + 3..end])
    case _ => None
  }

  /** `GeoIP_database_info` on an open file of which no reload is due. */
  method DatabaseInfo(file: seq<Byte>) returns (info: Option<seq<Byte>>)
    ensures info == DescriptionOf(file)
  {
    var marker := ScanBack(file, 255, |file| - 3, STRUCTURE_INFO_MAX_SIZE);
    var offset: int;
    match marker {
      case OffFront => return None;
      case Hit(at) =>
        offset := at + 3 - 6;
        if offset < 0 {
          return None;
        }
      case Exhausted =>
        offset := |file| - 3;
        if offset < 0 {
          return None;
        }
    }
    var zeros := ScanBack(file, 0, offset, DATABASE_INFO_MAX_SIZE);
    match zeros {
      case Hit(at) =>
        var i := offset - at;
        assert file[at + 3..offset + 3] == file[at + 3..at + 3 + i];
        return Pread(file, i, at + 3);
      case _ =>
        return None;
    }
  }

  /** A file with a description in front of its marker. */
  function Described(prefix: seq<Byte>, info: seq<Byte>, trailer: seq<Byte>): seq<Byte> {
    prefix + [0, 0, 0] + info + [255, 255, 255] + trailer
  }

  /** The bytes behind the marker neither continue its run nor hold one of their own. */
  ghost predicate CleanTrailer(trailer: seq<Byte>) {
    && |trailer| < 20
    && (trailer != [] ==> trailer[0] != 255)
    && forall k | 0 <= k < |trailer| :: !IsRun(trailer, 255, k)
  }

  lemma LastRunBehind(body: seq<Byte>, trailer: seq<Byte>)
    requires CleanTrailer(trailer)
    ensures var file := body + [255, 255, 255] + trailer;
            LastRun(file, 255, |file| - 3, STRUCTURE_INFO_MAX_SIZE) == Hit(|body|)
  {
    var file := body + [255, 255, 255] + trailer;
    var at := |body|;
    assert file[at + 3..] == trailer;
    forall k | at < k <= |file| - 3
      ensures !IsRun(file, 255, k)
    {
      if k < at + 3 {
        assert trailer != [] && file[at + 3] == trailer[0];
      } else {
        var j := k - at - 3;
        assert file[k] == trailer[j] && file[k + 1] == trailer[j + 1] && file[k + 2] == trailer[j + 2];
        assert !IsRun(trailer, 255, j);
      }
    }
    LastRunUnique(file, 255, |file| - 3, STRUCTURE_INFO_MAX_SIZE, Hit(at));
  }

  /** The layout of a file with a clean trailer is what the trailer says. */
  lemma MarkedLayout(body: seq<Byte>, trailer: seq<Byte>)
    requires CleanTrailer(trailer)
    ensures LayoutOf(body + [255, 255, 255] + trailer) == LayoutBehind(trailer, 0)
  {
    var file := body + [255, 255, 255] + trailer;
    LastRunBehind(body, trailer);
    var at := |body| + 3;
    assert file[at..] == trailer;
    if trailer != [] {
      assert file[at] == trailer[0];
    }
    if |trailer| >= 4 {
      assert file[at + 1..at + 4] == trailer[1..4];
    }
  }

  /** Which edition byte means what, by number, for every byte behind a marker: the record length, where the first
      value comes from, and which bytes make the file corrupt.  The bytes 106 to 127 are old forms of 1 to 22. */
  lemma EditionLayout(body: seq<Byte>, e: Byte, rest: seq<Byte>)
    requires CleanTrailer([e] + rest)
    ensures var n: int := if 106 <= e < 128 then e - 105 else e;
            var count: Option<nat> := if |rest| >= 3 then Some(LittleEndian(rest[..3])) else None;
            LayoutOf(body + [255, 255, 255] + ([e] + rest)) ==
            if n in {4, 5, 11, 22, 23, 24} then
              if count.Some? then Some(Layout(n, 4, count.value)) else None
            else if n in {2, 6, 9, 13, 14, 21, 26, 27, 28, 29, 30, 31, 32, 33, 34, 35, 36, 37, 38} then
              if count.Some? then Some(Layout(n, 3, count.value)) else None
            else if n in {1, 8, 10, 12} then Some(Layout(n, 3, 16776960))
            else if n in {17, 18} then Some(Layout(n, 3, 16515072))
            else if n == 7 then Some(Layout(n, 3, 16700000))
            else if n == 3 then Some(Layout(n, 3, 16000000))
            else None
  {
    MarkedLayout(body, [e] + rest);
    if |rest| >= 3 {
      assert ([e] + rest)[1..4] == rest[..3];
    }
  }

  /** How much an index cache holds, by edition number: everything,
      or the pairs of all segments if the file is that long. */
  lemma EditionIndexSize(file: seq<Byte>)
    requires LayoutOf(file).Some?
    ensures var layout := LayoutOf(file).value;
            IndexSize(file, layout) ==
            if layout.databaseType in {1, 3, 7, 8, 10, 12, 17, 18} then Some(|file|)
            else
              var n := 2 * layout.recordLength * layout.segments;
              if n <= |file| then Some(n) else None
  {
    var layout := LayoutOf(file).value;
    assert layout.segments * layout.recordLength * 2 == 2 * layout.recordLength * layout.segments;
  }

  /** A file of one node: the first record answers the lower half of all addresses, the second one the upper half. */
  lemma OneNodeFile(low: seq<Byte>, high: seq<Byte>, body: seq<Byte>, e: Byte, num: nat)
    requires e in {2, 4, 5, 6, 9, 11, 13, 14, 26, 28, 32, 34, 35, 36, 37} && num < 0x1_0000_0000
    requires |low| == |high| == (if e in {4, 5, 11} then 4 else 3)
    requires LittleEndian(low) >= 1 && LittleEndian(high) >= 1
    ensures var file := low + high + body + [255, 255, 255] + [e, 1, 0, 0];
            && LayoutOf(file).Some?
            && IndexSize(file, LayoutOf(file).value) == Some(|low| + |high|)
            && Lookup(IndexOf(file, LayoutOf(file).value), 32, num)
            == Found(LittleEndian(if num < 0x8000_0000 then low else high), 1)
  {
    var file := low + high + body + [255, 255, 255] + [e, 1, 0, 0];
    OneSegment(low + high + body, e, |low|);
    RecordsInFront(low, high, body, [e, 1, 0, 0]);
    OneNodeLookup(Index(file, |low|, 1), low, high, num);
  }

  lemma OneNodeLookup(ix: Index, low: seq<Byte>, high: seq<Byte>, num: nat)
    requires ix.segments == 1 && ix.recordLength == |low| == |high| && 2 * |low| <= |ix.bytes| && num < 0x1_0000_0000
    requires ix.bytes[0..|low|] == low && ix.bytes[|low|..2 * |low|] == high
    requires LittleEndian(low) >= 1 && LittleEndian(high) >= 1
    ensures Lookup(ix, 32, num) == Found(LittleEndian(if num < 0x8000_0000 then low else high), 1)
  {
    TopBit(num);
    assert ix.HasNode(0);
    assert ix.Child(0, false) == LittleEndian(low) && ix.Child(0, true) == LittleEndian(high);
  }

  lemma RecordsInFront(low: seq<Byte>, high: seq<Byte>, body: seq<Byte>, trailer: seq<Byte>)
    ensures var file := low + high + body + [255, 255, 255] + trailer;
            file[0..|low|] == low && file[|low|..|low| + |high|] == high
  {
  }

  lemma TopBit(num: nat)
    requires num < 0x1_0000_0000
    ensures Bit(num, 31) <==> num >= 0x8000_0000
  {
    ShrIsDivision(num, 31);
    Pow2Values();
  }

  lemma OneSegment(body: seq<Byte>, e: Byte, length: nat)
    requires e in {2, 4, 5, 6, 9, 11, 13, 14, 26, 28, 32, 34, 35, 36, 37}
    requires length == (if e in {4, 5, 11} then 4 else 3) && 2 * length <= |body|
    ensures var file := body + [255, 255, 255] + [e, 1, 0, 0];
            LayoutOf(file) == Some(Layout(e, length, 1)) && IndexSize(file, Layout(e, length, 1)) == Some(2 * length)
  {
    var count: seq<Byte> := [1, 0, 0];
    assert [e] + count == [e, 1, 0, 0];
    EditionLayout(body, e, count);
    assert count[..3] == count;
    assert count[1..] == [0, 0] && LittleEndian([0, 0]) == 0;
    assert LittleEndian(count) == 1;
  }

  /** No FF FF FF starts at one of the last 20 places of the file. */
  ghost predicate IsMarkerless(file: seq<Byte>) {
    forall k | 0 <= k && |file| - 22 <= k <= |file| - 3 :: file[k] != 255 || file[k + 1] != 255 || file[k + 2] != 255
  }

  /** Such a file is one of the country edition if it has at least 23 bytes, and corrupt otherwise. */
  lemma MarkerlessLayout(file: seq<Byte>)
    requires IsMarkerless(file)
    ensures LayoutOf(file) == if |file| >= 23 then Some(Layout(1, 3, 16776960)) else None
    ensures |file| >= 23 ==> LastRun(file, 255, |file| - 3, STRUCTURE_INFO_MAX_SIZE) == Exhausted
  {
    LastRunUnique(file, 255, |file| - 3, STRUCTURE_INFO_MAX_SIZE, if |file| >= 23 then Exhausted else OffFront);
  }

  /** The description of such a file is its end, when that is a NUL-free text of at most 99 bytes behind 00 00 00. */
  lemma MarkerlessDescription(prefix: seq<Byte>, info: CString)
    requires |prefix + [0, 0, 0] + info| >= 23 && IsMarkerless(prefix + [0, 0, 0] + info)
    ensures DescriptionOf(prefix + [0, 0, 0] + info) == if |info| <= 99 then Some(info) else None
  {
    var file := prefix + [0, 0, 0] + info;
    MarkerlessLayout(file);
    DescriptionEnds(prefix, info, []);
    assert file + [] == file;
  }

  /** The search backwards from the end of a description finds the
      zeros in front of it if they are at most 99 bytes away. */
  lemma DescriptionEnds(prefix: seq<Byte>, info: CString, rest: seq<Byte>)
    ensures var body := prefix + [0, 0, 0] + info;
            DescriptionBefore(body + rest, |body|) == if |info| <= 99 then Some(info) else None
  {
    var body := prefix + [0, 0, 0] + info;
    var file := body + rest;
    var zeros := |prefix|;
    forall k | zeros < k <= |body| - 3
      ensures !IsRun(file, 0, k)
    {
      assert file[k + 2] == info[k + 2 - zeros - 3];
    }
    if |info| <= 99 {
      LastRunUnique(file, 0, |body| - 3, DATABASE_INFO_MAX_SIZE, Hit(zeros));
      assert file[zeros + 3..|body|] == info;
    } else {
      LastRunUnique(file, 0, |body| - 3, DATABASE_INFO_MAX_SIZE, Exhausted);
    }
  }

  /** The description round trip: a NUL-free text comes back exactly
      if it has at most 99 bytes, and not at all otherwise. */
  lemma DescriptionRoundTrip(prefix: seq<Byte>, info: CString, trailer: seq<Byte>)
    requires CleanTrailer(trailer)
    ensures DescriptionOf(Described(prefix, info, trailer)) == if |info| <= 99 then Some(info) else None
  {
    var body := prefix + [0, 0, 0] + info;
    assert Described(prefix, info, trailer) == body + [255, 255, 255] + trailer == body + ([255, 255, 255] + trailer);
    LastRunBehind(body, trailer);
    DescriptionEnds(prefix, info, [255, 255, 255] + trailer);
  }
}
