/**
 The open database handle: opening, segment setup, the two trie walks over the
 three byte sources, and the reload check.
 */
module Handle {
  import opened Bits
  import opened Bytes
  import opened Trie
  import opened Structure
  import opened Teredo

  datatype Flags = Flags(memoryCache: bool, checkCache: bool, indexCache: bool, mmapCache: bool)

  datatype Charset = Iso88591 | Utf8

  /** One state of the database file: its bytes and its modification time in seconds. */
  datatype FileVersion = FileVersion(content: seq<Byte>, mtime: int)

  /** The part of a handle that is read from the file. */
  datatype Core = Core(
    database: seq<Byte>,
    cache: Option<seq<Byte>>,
    indexCache: Option<seq<Byte>>,
    databaseSegments: nat,
    databaseType: int,
    recordLength: nat,
    size: int,
    mtime: int)
  {
    function Index(): Index {
      Trie.Index(database, recordLength, databaseSegments)
    }

    /** With a segment count of zero the index cache of an edition with content is empty,
        and the walk reads it all the same when the file is long enough to hold a root. */
    predicate IndexCacheUsable() {
      indexCache.Some? && HasContent(databaseType) && databaseSegments == 0 ==> !Index().HasNode(0)
    }
  }

  /** What a handle opened on one file version reads from it; None is a corrupt file. */
  function OpenCore(file: FileVersion, flags: Flags): Option<Core> {
    match LayoutOf(file.content)
    case None => None
    case Some(layout) =>
      match IndexSize(file.content, layout)
      case None => None
      case Some(n) =>
        Some(Core(
               file.content,
               if flags.memoryCache || flags.mmapCache then Some(file.content) else None,
               if flags.indexCache then Some(file.content[..n]) else None,
               layout.segments, layout.databaseType, layout.recordLength,
               |file.content|,
               if flags.memoryCache || flags.mmapCache || flags.checkCache then file.mtime else 0))
  }

  /** The parts of an opened handle, put together. */
  lemma OpenCoreIs(file: FileVersion, flags: Flags, core: Core)
    requires core.database == file.content && core.size == |file.content|
    requires LayoutOf(file.content) == Some(Layout(core.databaseType, core.recordLength, core.databaseSegments))
    requires IndexSize(file.content, LayoutOf(file.content).value).Some?
    requires core.cache == if flags.memoryCache || flags.mmapCache then Some(file.content) else None
    requires core.mtime == if flags.memoryCache || flags.mmapCache || flags.checkCache then file.mtime else 0
    requires var n := IndexSize(file.content, LayoutOf(file.content).value).value;
             core.indexCache == if flags.indexCache then Some(file.content[..n]) else None
    ensures OpenCore(file, flags) == Some(core)
  {
  }

  /** A file opens, in every storage mode alike, exactly when it has a layout and all pairs of its segments. */
  lemma OpensIff(file: FileVersion, flags: Flags)
    ensures OpenCore(file, flags).Some? <==>
              && LayoutOf(file.content).Some?
              && var layout := LayoutOf(file.content).value;
                 layout.databaseType in {1, 3, 7, 8, 10, 12, 17, 18}
                 || 2 * layout.recordLength * layout.segments <= |file.content|
    ensures OpenCore(file, flags).Some? ==>
              var core := OpenCore(file, flags).value;
              && LayoutOf(file.content) == Some(Layout(core.databaseType, core.recordLength, core.databaseSegments))
              && core.database == file.content && core.size == |file.content|
  {
    if LayoutOf(file.content).Some? {
      EditionIndexSize(file.content);
    }
  }

  /** What each flag makes of a handle: memory and mmap caching hold the whole file, the index cache its first `n`
      bytes as the edition number tells, and the modification time is noted by each of the three flags that need it. */
  lemma OpenedSources(file: FileVersion, flags: Flags)
    requires OpenCore(file, flags).Some?
    ensures var core := OpenCore(file, flags).value;
            var n := if core.databaseType in {1, 3, 7, 8, 10, 12, 17, 18} then |file.content|
                     else 2 * core.recordLength * core.databaseSegments;
            && core.cache == (if flags.memoryCache || flags.mmapCache then Some(file.content) else None)
            && n <= |file.content|
            && core.indexCache == (if flags.indexCache then Some(file.content[..n]) else None)
            && (flags.memoryCache || flags.mmapCache || flags.checkCache ==> core.mtime == file.mtime)
  {
    EditionIndexSize(file.content);
  }

  /** A handle can be reconstructed from the bytes and the modification time that it holds. */
  lemma ReopenGivesSameCore(file: FileVersion, flags: Flags)
    requires OpenCore(file, flags).Some?
    ensures var core := OpenCore(file, flags).value;
            && core.database == file.content
            && OpenCore(FileVersion(core.database, core.mtime), flags) == Some(core)
  {
  }

  /** The bytes that the walk reads: the index cache, else the whole-file cache, else the file. */
  function Source(core: Core): seq<Byte> {
    if core.indexCache.Some? then core.indexCache.value
    else if core.cache.Some? then core.cache.value
    else core.database
  }

  /** All storage modes agree: the walk over whichever bytes a handle reads gives
      the answers of the file, exactly when its index cache can be used. */
  lemma SourcesAgree(file: FileVersion, flags: Flags, w: nat, num: nat)
    requires OpenCore(file, flags).Some?
    ensures var core := OpenCore(file, flags).value;
            Lookup(core.Index().(bytes := Source(core)), w, num)
              == Lookup(IndexOf(file.content, LayoutOf(file.content).value), w, num)
            <==> w == 0 || core.IndexCacheUsable()
  {
    var core := OpenCore(file, flags).value;
    var ix := IndexOf(file.content, LayoutOf(file.content).value);
    LayoutIsValid(file.content);
    if core.indexCache.Some? && HasContent(core.databaseType) {
      if core.databaseSegments >= 1 {
        PrefixSuffices(ix, |core.indexCache.value|, w, num, w, 0);
      }
    } else {
      assert Source(core) == file.content;
    }
  }

  /** A file without segments on which the storage modes disagree: it opens in every mode, and an index cache of it
      cannot be used as soon as a single byte precedes the marker. */
  lemma UnusableIndexCache(body: seq<Byte>, mtime: int, flags: Flags, w: nat, num: nat)
    requires w >= 1
    ensures var core := OpenCore(FileVersion(OrgFileWithoutSegments(body), mtime), flags);
            && core.Some?
            && (core.value.IndexCacheUsable() <==> !flags.indexCache || body == [])
            && (Lookup(core.value.Index().(bytes := Source(core.value)), w, num) == Lookup(core.value.Index(), w, num)
                <==> !flags.indexCache || body == [])
  {
    OrgFileLayout(body);
    SourcesAgree(FileVersion(OrgFileWithoutSegments(body), mtime), flags, w, num);
  }

  /** The first `segments` pairs are all that a walk needs. */
  lemma {:induction false} PrefixSuffices(ix: Index, n: nat, w: nat, num: nat, d: nat, node: nat)
    requires d <= w && node < ix.segments && n == ix.segments * ix.recordLength * 2 <= |ix.bytes|
    ensures Descend(ix.(bytes := ix.bytes[..n]), w, num, d, node) == Descend(ix, w, num, d, node)
  {
    NodeInPrefix(ix, n, node);
    if d > 0 {
      ChildInPrefix(ix, n, node, Bit(num, d - 1));
      var x := ix.Child(node, Bit(num, d - 1));
      if x < ix.segments {
        PrefixSuffices(ix, n, w, num, d - 1, x);
      }
    }
  }

  lemma NodeInPrefix(ix: Index, n: nat, node: nat)
    requires node < ix.segments && n == ix.segments * ix.recordLength * 2
    ensures ix.At(node) + ix.PairLength() <= n
  {
    BlockFits(node, ix.segments, ix.PairLength());
    assert ix.segments * ix.PairLength() == n;
    assert ix.At(node) == node * ix.PairLength();
  }

  lemma ChildInPrefix(ix: Index, n: nat, node: nat, right: bool)
    requires ix.At(node) + ix.PairLength() <= n <= |ix.bytes|
    ensures var short := ix.(bytes := ix.bytes[..n]);
            short.HasNode(node) && ix.HasNode(node) && short.Child(node, right) == ix.Child(node, right)
  {
    var at := ix.At(node) + if right then ix.recordLength else 0;
    SliceOfSlice(ix.bytes, 0, n, at, ix.recordLength);
    assert ix.bytes[0..n] == ix.bytes[..n];
  }

  /** The state of an intact handle between calls. */
  datatype View = View(core: Core, flags: Flags, charset: Charset, netmask: int, lastMtimeCheck: int, extFlags: nat)

  /** The values that a lookup takes before its reload check are good for the new version as well. */
  predicate AnswersWhileReloading(before: Core, after: Core) {
    && after.recordLength == before.recordLength
    && (after.cache.Some? || after.indexCache.Some?)
    && after.IndexCacheUsable()
  }

  predicate ReloadDue(v: View, disk: FileVersion, now: int) {
    disk.mtime != v.core.mtime && disk.mtime + 60 < now
  }

  /** What the reload check makes of a handle; `disk` is None when `stat`
      fails, and the result is None when the new file is corrupt. */
  function Checked(v: View, disk: Option<FileVersion>, now: int): Option<View> {
    if !v.flags.checkCache || now == v.lastMtimeCheck then Some(v)
    else if disk.Some? && ReloadDue(v, disk.value, now) then
      match OpenCore(disk.value, v.flags)
      case None => None
      case Some(core) => Some(v.(core := core, lastMtimeCheck := now))
    else Some(v.(lastMtimeCheck := now))
  }

  /** The per-call result object of a lookup. */
  class GeoIPLookup {
    var netmask: int

    constructor ()
      ensures netmask == 0
    {
      netmask := 0;
    }
  }

  /** `ipnum & (1 << depth)`. */
  function CheckBit(depth: nat, ipnum: nat): nat {
    BitAnd(ipnum, Shl(1, depth))
  }

  lemma CheckBitIsBit(depth: nat, ipnum: nat)
    ensures CheckBit(depth, ipnum) != 0 <==> Bit(ipnum, depth)
  {
    AndSingleBit(ipnum, depth);
  }

  /** `GEOIP_CHKBIT_V6(bit, ptr)`: in two's complement `~y & 7` is the remainder of `-y - 1` by 8. */
  function CheckBitV6(bit: nat, ptr: seq<Byte>): nat
    requires bit < 128 && |ptr| == 16
  {
    BitAnd(ptr[(127 - bit) / 8], Pow2((-(127 - bit) - 1) % 8))
  }

  /** The macro tests bit `bit` of the big-endian 128-bit number. */
  lemma CheckBitV6IsBit(bit: nat, ptr: seq<Byte>)
    requires bit < 128 && |ptr| == 16
    ensures CheckBitV6(bit, ptr) != 0 <==> Bit(BigEndian(ptr), bit)
  {
    var k := (-(127 - bit) - 1) % 8;
    assert k == bit % 8 && (127 - bit) / 8 == 15 - bit / 8;
    AndSingleBit(ptr[15 - bit / 8], k);
    BigEndianBit(ptr, bit);
  }

  /** The general record decode: from the last byte down, `x = (x << 8) + byte` in 32 bits. */
  method DecodeDownwards(buf: seq<Byte>, end: nat, length: nat) returns (x: nat)
    requires 1 <= length <= 4 && length <= end <= |buf|
    ensures x == LittleEndian(buf[end - length..end])
  {
    var p, j := end, length;
    x := 0;
    while j > 0
      invariant j <= length && p == end - length + j
      invariant x == LittleEndian(buf[p..end])
    {
      Pow2Values();
      LittleEndianBound(buf[p..end]);
      Pow2Monotonic(8 * (end - p), 24);
      assert buf[p - 1..end][1..] == buf[p..end];
      assert Shl32(x, 8) == x * 256;
      p := p - 1;
      x := (Shl32(x, 8) + buf[p]) % TWO_TO_THE_32;
      j := j - 1;
    }
  }

  /** The record of a pair for one branch: unrolled for 3-byte records, the general loop otherwise. */
  method LoadRecord(buf: seq<Byte>, recordLength: nat, right: bool) returns (x: nat)
    requires (recordLength == 3 || recordLength == 4) && |buf| == 2 * recordLength
    ensures var at := if right then recordLength else 0; x == LittleEndian(buf[at..at + recordLength])
  {
    if right {
      if recordLength == 3 {
        x := Shl(buf[3 * 1 + 0], 0 * 8) + Shl(buf[3 * 1 + 1], 1 * 8) + Shl(buf[3 * 1 + 2], 2 * 8);
        UnrolledIsLittleEndian(buf, 3);
      } else {
        x := DecodeDownwards(buf, 2 * recordLength, recordLength);
      }
    } else {
      if recordLength == 3 {
        x := Shl(buf[3 * 0 + 0], 0 * 8) + Shl(buf[3 * 0 + 1], 1 * 8) + Shl(buf[3 * 0 + 2], 2 * 8);
        UnrolledIsLittleEndian(buf, 0);
      } else {
        x := DecodeDownwards(buf, recordLength, recordLength);
      }
    }
  }

  lemma UnrolledIsLittleEndian(buf: seq<Byte>, at: nat)
    requires at + 3 <= |buf|
    ensures LittleEndian(buf[at..at + 3]) == Shl(buf[at], 0) + Shl(buf[at + 1], 8) + Shl(buf[at + 2], 16)
  {
    Pow2Values();
    var s := buf[at..at + 3];
    assert s[1..][1..] == [buf[at + 2]];
    assert LittleEndian([buf[at + 2]]) == buf[at + 2];
    assert LittleEndian(s[1..]) == buf[at + 1] + 256 * LittleEndian(s[1..][1..]);
  }

  /** The segment count: `segments += buf[j] << (j * 8)` over the stored bytes. */
  method DecodeThreeBytes(buf: seq<Byte>) returns (segments: nat)
    requires |buf| == SEGMENT_RECORD_LENGTH
    ensures segments == LittleEndian(buf)
  {
    segments := 0;
    var j := 0;
    while j < |buf|
      invariant j <= |buf|
      invariant segments == LittleEndian(buf[..j])
    {
      LittleEndianAppend(buf[..j], buf[j]);
      assert buf[..j + 1] == buf[..j] + [buf[j]];
      segments := segments + Shl(buf[j], 8 * j);
      j := j + 1;
    }
    assert buf[..j] == buf;
  }

  /** A prefix of the file that holds every node: all of it, the first
      `segments` pairs, or any when there is no root. */
  ghost predicate HoldsAllNodes(ix: Index, prefix: seq<Byte>) {
    && prefix <= ix.bytes
    && (prefix == ix.bytes || !ix.HasNode(0) || (ix.segments >= 1 && |prefix| == ix.segments * ix.recordLength * 2))
  }

  class GeoIP {
    var database: seq<Byte>             // what the open FILE reads
    var cache: Option<seq<Byte>>        // the whole file, copied or mapped
    var indexCache: Option<seq<Byte>>
    var databaseSegments: Option<nat>
    var databaseType: int
    var mtime: int
    var flags: Flags
    var size: int
    var recordLength: nat
    var charset: Charset
    var netmask: int                    // prefix length of the last successful lookup
    var lastMtimeCheck: int
    var extFlags: nat                   // bit 0: teredo support

    /** `calloc`. */
    constructor Zeroed()
      ensures database == [] && cache == None && indexCache == None && databaseSegments == None
      ensures mtime == 0 && netmask == 0 && lastMtimeCheck == 0
    {
      database, cache, indexCache, databaseSegments := [], None, None, None;
      databaseType, mtime, size, recordLength := 0, 0, 0, 0;
      flags, charset := Flags(false, false, false, false), Iso88591;
      netmask, lastMtimeCheck, extFlags := 0, 0, 0;
    }

    function CoreOf(): Core
      requires databaseSegments.Some?
      reads this
    {
      Core(database, cache, indexCache, databaseSegments.value, databaseType, recordLength, size, mtime)
    }

    /** Everything in the handle comes from one file version. */
    predicate Valid()
      reads this
    {
      databaseSegments.Some? && OpenCore(FileVersion(database, mtime), flags) == Some(CoreOf())
    }

    /** The byte sources agree: a cache is the file, an index cache
        is a prefix of it that holds every node that can be read. */
    ghost predicate Walkable()
      reads this
    {
      && databaseSegments.Some? && Index().Valid() && size == |database|
      && (cache.Some? ==> cache.value == database)
      && (indexCache.Some? ==> HoldsAllNodes(Index(), indexCache.value))
    }

    /** Every handle that opens can be walked, unless its index cache is empty and yet read. */
    lemma ValidIsWalkable()
      requires Valid() && CoreOf().IndexCacheUsable()
      ensures Walkable()
    {
      LayoutIsValid(database);
    }

    function Index(): Index
      requires databaseSegments.Some?
      reads this
    {
      Trie.Index(database, recordLength, databaseSegments.value)
    }

    function ViewOf(): View
      requires databaseSegments.Some?
      reads this
    {
      View(CoreOf(), flags, charset, netmask, lastMtimeCheck, extFlags)
    }

    predicate TeredoEnabled()
      reads this
    {
      BitAnd(extFlags, 1) != 0
    }

    /** The part of `_setup_segments` behind a marker: the edition byte, and the segment count of the
        editions that store one or are a region edition. False is the early return on a short read. */
    method SetupBehindMarker(at: nat) returns (ok: bool)
      requires size == |database| && databaseSegments == None && recordLength == STANDARD_RECORD_LENGTH
      modifies this`databaseSegments, this`databaseType, this`recordLength
      ensures !ok ==> databaseSegments == None && LayoutBehind(database, at).None?
      ensures ok && databaseSegments.Some? ==>
                && LayoutBehind(database, at) == Some(Layout(databaseType, recordLength, databaseSegments.value))
                && (FixedSegments(databaseType).None? || databaseSegments == FixedSegments(databaseType))
      ensures ok && databaseSegments.None? ==>
                && at < |database| && databaseType == EditionOf(database[at]) && recordLength == STANDARD_RECORD_LENGTH
                && !StoresSegments(databaseType)
                && databaseType != REGION_EDITION_REV0 && databaseType != REGION_EDITION_REV1
    {
      var offset := at;
      var edition := Pread(database, 1, offset);
      if edition.None? || |edition.value| != 1 {
        return false;
      }
      assert edition.value[0] == database[at];
      offset := offset + 1;
      databaseType := SignedChar(edition.value[0]);
      if databaseType >= 106 {
        databaseType := databaseType - 105;
      }
      assert databaseType == EditionOf(database[at]);
      if databaseType == REGION_EDITION_REV0 {
        databaseSegments := Some(STATE_BEGIN_REV0);
        assert LayoutBehind(database, at) == Some(Layout(databaseType, recordLength, databaseSegments.value));
      } else if databaseType == REGION_EDITION_REV1 {
        databaseSegments := Some(STATE_BEGIN_REV1);
      } else if StoresSegments(databaseType) {
        var buf := Pread(database, SEGMENT_RECORD_LENGTH, offset);
        if buf.None? || |buf.value| != SEGMENT_RECORD_LENGTH {
          return false;
        }
        var segments := DecodeThreeBytes(buf.value);
        assert buf.value == database[offset..offset + SEGMENT_RECORD_LENGTH];
        databaseSegments := Some(segments);
        if HasWideRecords(databaseType) {
          recordLength := ORG_RECORD_LENGTH;
        }
        assert LayoutBehind(database, at) == Some(Layout(databaseType, recordLength, databaseSegments.value));
      }
      return true;
    }

    /** `_setup_segments`. */
    method SetupSegments()
      requires size == |database|
      modifies this`databaseSegments, this`databaseType, this`recordLength
      ensures databaseSegments.None? <==> LayoutOf(database).None?
      ensures databaseSegments.Some? ==>
                LayoutOf(database) == Some(Layout(databaseType, recordLength, databaseSegments.value))
    {
      databaseSegments := None;
      databaseType := COUNTRY_EDITION;
      recordLength := STANDARD_RECORD_LENGTH;
      var marker := ScanBack(database, 255, size - 3, STRUCTURE_INFO_MAX_SIZE);
      match marker {
        case OffFront =>
          return;
        case Exhausted =>
        case Hit(at) =>
          var ok := SetupBehindMarker(at + 3);
          if !ok {
            return;
          }
      }
      if databaseType == COUNTRY_EDITION || databaseType == PROXY_EDITION
         || databaseType == NETSPEED_EDITION || databaseType == COUNTRY_EDITION_V6 {
        databaseSegments := Some(COUNTRY_BEGIN);
      } else if databaseType == LARGE_COUNTRY_EDITION || databaseType == LARGE_COUNTRY_EDITION_V6 {
        databaseSegments := Some(LARGE_COUNTRY_BEGIN);
      }
    }

    /** `get_index_size`; the multiplication cannot overflow, as `Trie.NodeOffsetFits` shows. */
    method GetIndexSize(fileSize: nat) returns (n: int)
      requires databaseSegments.Some? && fileSize == |database|
      ensures match IndexSize(database, Layout(databaseType, recordLength, databaseSegments.value))
              case Some(k) => n == k
              case None => n == -1
    {
      if !HasContent(databaseType) {
        return fileSize;
      }
      n := databaseSegments.value * recordLength * 2;
      if n > fileSize {
        return -1;
      }
    }

    /** The end of both opening and reloading: segments, index size, index cache; false is a corrupt file. */
    method ReadStructure() returns (ok: bool)
      requires size == |database|
      modifies this`databaseSegments, this`databaseType, this`recordLength, this`indexCache
      ensures ok ==>
                && databaseSegments.Some?
                && LayoutOf(database) == Some(Layout(databaseType, recordLength, databaseSegments.value))
                && IndexSize(database, LayoutOf(database).value).Some?
                && var n := IndexSize(database, LayoutOf(database).value).value;
                   indexCache == if flags.indexCache then Some(database[..n]) else old(indexCache)
      ensures !ok ==> LayoutOf(database).None? || IndexSize(database, LayoutOf(database).value).None?
    {
      SetupSegments();
      if databaseSegments == None {
        return false;
      }
      var indexSize := GetIndexSize(size);
      if indexSize < 0 {
        return false;
      }
      if flags.indexCache {
        indexCache := Some(database[..indexSize]);
      }
      return true;
    }

    /** The part of `GeoIP_open` that maps or reads the whole file and notes its time. */
    method FillCache(stat: FileVersion, flags: Flags)
      requires mtime == 0
      modifies this`database, this`size, this`mtime, this`cache
      ensures database == stat.content && size == |stat.content|
      ensures cache == if flags.memoryCache || flags.mmapCache then Some(stat.content) else None
      ensures mtime == if flags.memoryCache || flags.mmapCache || flags.checkCache then stat.mtime else 0
    {
      database := stat.content;
      size := |stat.content|;
      if flags.memoryCache || flags.mmapCache {
        mtime := stat.mtime;
        cache := Some(database);
      } else {
        if flags.checkCache {
          mtime := stat.mtime;
        }
        cache := None;
      }
    }

    /** The body of `GeoIP_open` once the file is open; false is one of the corrupt-file exits. */
    method Attach(stat: FileVersion, flags: Flags) returns (ok: bool)
      requires cache == None && indexCache == None && databaseSegments == None && mtime == 0 && netmask == 0
      modifies this
      ensures ok <==> OpenCore(stat, flags).Some?
      ensures ok ==>
                && databaseSegments.Some?
                && OpenCore(stat, flags) == Some(CoreOf())
                && ViewOf() == View(CoreOf(), flags, Iso88591, 0, 0, 1)
    {
      FillCache(stat, flags);
      this.flags := flags;
      charset := Iso88591;
      extFlags := Pow2(0);
      ok := ReadStructure();
      if !ok {
        return false;
      }
      lastMtimeCheck := 0;
      OpenCoreIs(stat, flags, CoreOf());
      return true;
    }

    /** `GeoIP_open`: null when the file cannot be opened or is corrupt. */
    static method Open(file: Option<FileVersion>, flags: Flags) returns (gi: GeoIP?)
      ensures gi == null <==> file.None? || OpenCore(file.value, flags).None?
      ensures gi != null ==>
                && fresh(gi) && gi.Valid()
                && OpenCore(file.value, flags) == Some(gi.CoreOf())
                && gi.ViewOf() == View(gi.CoreOf(), flags, Iso88591, 0, 0, 1)
    {
      var g := new GeoIP.Zeroed();
      if file.None? {
        return null;
      }
      var ok := g.Attach(file.value, flags);
      if !ok {
        return null;
      }
      ReopenGivesSameCore(file.value, flags);
      return g;
    }

    /** The pair at a byte offset, from the disk, the whole-file cache or the index cache; None is a short read. */
    method FetchPair(byteOffset: nat, pairLength: nat) returns (buf: Option<seq<Byte>>)
      requires Walkable()
      requires pairLength == Index().PairLength() && byteOffset + pairLength <= |database|
      requires databaseSegments.value >= 1 ==>
                 byteOffset + pairLength <= databaseSegments.value * recordLength * 2
      ensures buf == Some(database[byteOffset..byteOffset + pairLength])
    {
      if cache == None && indexCache == None {
        buf := Pread(database, pairLength, byteOffset);
        if buf.None? || |buf.value| != pairLength {
          return None;
        }
      } else if indexCache == None {
        buf := Some(cache.value[byteOffset..byteOffset + pairLength]);
      } else {
        assert indexCache.value[byteOffset..byteOffset + pairLength] == database[byteOffset..byteOffset + pairLength];
        buf := Some(indexCache.value[byteOffset..byteOffset + pairLength]);
      }
    }

    /** One step of either walk: locate the pair of node `offset` in 32-bit
        arithmetic, fetch it and load one record; None ends the walk. */
    method ReadChild(offset: nat, right: bool) returns (child: Option<nat>)
      requires Walkable()
      requires offset == 0 || offset < databaseSegments.value
      ensures var ix := Index();
              child == if ix.HasNode(offset) then Some(ix.Child(offset, right)) else None
    {
      ghost var ix := Index();
      NodeOffsetFits(ix, offset);
      var recordPairLength := recordLength * 2;
      var byteOffset := recordPairLength * offset % TWO_TO_THE_32;
      assert byteOffset == ix.At(offset);
      if byteOffset > size - recordPairLength {
        return None;
      }
      var buf := FetchPair(byteOffset, recordPairLength);
      if buf == None {
        return None;
      }
      var x := LoadRecord(buf.value, recordLength, right);
      PairOf(ix, offset, right);
      return Some(x);
    }

    /** `_GeoIP_seek_record_gl` behind its reload check. */
    method SeekRecord(ipnum: nat, gl: GeoIPLookup) returns (x: nat)
      requires Walkable()
      requires ipnum < TWO_TO_THE_32
      modifies this`netmask, gl
      ensures var answer := Lookup(Index(), IPV4_BITS, ipnum);
              && x == answer.Value()
              && netmask == (if answer.Found? then answer.netmask else old(netmask))
              && gl.netmask == (if answer.Found? then answer.netmask else old(gl.netmask))
    {
      ghost var ix := Index();
      var offset: nat := 0;
      var depth := 31;
      while depth >= 0
        invariant -1 <= depth <= 31
        invariant offset == 0 || offset < ix.segments
        invariant Lookup(ix, IPV4_BITS, ipnum) == Descend(ix, IPV4_BITS, ipnum, depth + 1, offset)
        invariant netmask == old(netmask) && gl.netmask == old(gl.netmask)
      {
        CheckBitIsBit(depth, ipnum);
        var child := ReadChild(offset, CheckBit(depth, ipnum) != 0);
        if child == None {
          break;
        }
        x := child.value;
        if x >= databaseSegments.value {
          netmask := 32 - depth;
          gl.netmask := 32 - depth;
          return x;
        }
        offset := x;
        depth := depth - 1;
      }
      return 0;
    }

    /** The local copy of an IPv6 address, rewritten in place when teredo support is on. */
    method AddressToSeek(ipnum: seq<Byte>) returns (address: seq<Byte>)
      requires |ipnum| == 16
      ensures address == if TeredoEnabled() then Rewritten(ipnum) else ipnum
    {
      var v6 := new Byte[16](i requires 0 <= i < 16 => ipnum[i]);
      assert v6[..] == ipnum;
      if TeredoEnabled() {
        PrepareTeredo(v6);
      }
      return v6[..];
    }

    /** `_GeoIP_seek_record_v6_gl` behind its reload check. */
    method SeekRecordV6(ipnum: seq<Byte>, gl: GeoIPLookup) returns (x: nat)
      requires Walkable() && |ipnum| == 16
      modifies this`netmask, gl
      ensures var ip := BigEndian(ipnum);
              var teredo := extFlags % 2 == 1 && Shr(ip, 96) == 0x2001_0000;
              var answer := Lookup(Index(), 128, if teredo then 0xffff_ffff - ip % 0x1_0000_0000 else ip);
              && x == answer.Value()
              && netmask == (if answer.Found? then answer.netmask else old(netmask))
              && gl.netmask == (if answer.Found? then answer.netmask else old(gl.netmask))
    {
      var address := AddressToSeek(ipnum);
      SoughtNumber(ipnum);
      LowestBit(extFlags);
      x := WalkV6(address, gl);
    }

    /** The descent of `_GeoIP_seek_record_v6_gl`. */
    method WalkV6(address: seq<Byte>, gl: GeoIPLookup) returns (x: nat)
      requires Walkable() && |address| == 16
      modifies this`netmask, gl
      ensures var answer := Lookup(Index(), IPV6_BITS, BigEndian(address));
              && x == answer.Value()
              && netmask == (if answer.Found? then answer.netmask else old(netmask))
              && gl.netmask == (if answer.Found? then answer.netmask else old(gl.netmask))
    {
      ghost var ix := Index();
      ghost var num := BigEndian(address);
      var offset: nat := 0;
      var depth := 127;
      while depth >= 0
        invariant -1 <= depth <= 127
        invariant offset == 0 || offset < ix.segments
        invariant Lookup(ix, IPV6_BITS, num) == Descend(ix, IPV6_BITS, num, depth + 1, offset)
        invariant netmask == old(netmask) && gl.netmask == old(gl.netmask)
      {
        CheckBitV6IsBit(depth, address);
        var child := ReadChild(offset, CheckBitV6(depth, address) != 0);
        if child == None {
          break;
        }
        x := child.value;
        if x >= databaseSegments.value {
          netmask := 128 - depth;
          gl.netmask := 128 - depth;
          return x;
        }
        offset := x;
        depth := depth - 1;
      }
      return 0;
    }

    /** `_check_mtime`; `disk` is what `stat` and `fopen` see at the path, `now` the clock in seconds. */
    method CheckMtime(disk: Option<FileVersion>, now: int)
      requires Valid()
      modifies this
      ensures flags == old(flags)
      ensures match Checked(old(ViewOf()), disk, now)
              case Some(v) => Valid() && ViewOf() == v
              case None => !Valid()
      ensures charset == old(charset) && extFlags == old(extFlags) && netmask == old(netmask)
    {
      if !flags.checkCache || now == lastMtimeCheck {
        return;
      }
      lastMtimeCheck := now;
      if disk == None {
        return;
      }
      var stat := disk.value;
      if stat.mtime != mtime && stat.mtime + 60 < lastMtimeCheck {
        Reload(stat);
      }
    }

    /** The body of `_check_mtime` once an update is due: caches
        and handle first, then segments, then the index cache. */
    method Reload(stat: FileVersion)
      requires Valid() && flags.checkCache
      modifies this`database, this`cache, this`indexCache, this`mtime, this`size,
               this`databaseSegments, this`databaseType, this`recordLength
      ensures match OpenCore(stat, flags)
              case Some(core) => Valid() && CoreOf() == core
              case None => !Valid()
    {
      if flags.memoryCache || flags.mmapCache {
        cache := None;
      }
      database := stat.content;
      mtime := stat.mtime;
      size := |stat.content|;
      if flags.mmapCache {
        cache := Some(database);
      } else if flags.memoryCache {
        cache := Some(database);
      }
      databaseSegments := None;
      var ok := ReadStructure();
    }

    /** A whole `_GeoIP_seek_record_gl` call.  The pair length and file descriptor of the walk are taken before the
        reload check, so the call that reloads answers from the new version when it reads a cache and the record
        length is the old one, and is left unspecified otherwise; every other call answers from the handle. */
    method CheckedSeekRecord(ipnum: nat, gl: GeoIPLookup, disk: Option<FileVersion>, now: int) returns (x: nat)
      requires Valid() && ipnum < TWO_TO_THE_32
      requires CoreOf().IndexCacheUsable()
      modifies this, gl
      ensures flags == old(flags) && charset == old(charset) && extFlags == old(extFlags)
      ensures Checked(old(ViewOf()), disk, now).None? ==> !Valid()
      ensures match Checked(old(ViewOf()), disk, now)
              case None => true
              case Some(v) =>
                && Valid() && ViewOf() == v.(netmask := netmask)
                && (v.core == old(CoreOf()) || AnswersWhileReloading(old(CoreOf()), v.core) ==>
                      var answer := Lookup(v.core.Index(), IPV4_BITS, ipnum);
                      && x == answer.Value()
                      && netmask == (if answer.Found? then answer.netmask else old(netmask))
                      && gl.netmask == (if answer.Found? then answer.netmask else old(gl.netmask)))
    {
      var before := CoreOf();
      CheckMtime(disk, now);
      if !Valid() || (CoreOf() != before && !AnswersWhileReloading(before, CoreOf())) {
        x := *;
        netmask := *;
        gl.netmask := *;
      } else {
        ValidIsWalkable();
        x := SeekRecord(ipnum, gl);
      }
    }
  }

  lemma {:induction false} LittleEndianAppend(bytes: seq<Byte>, b: Byte)
    ensures LittleEndian(bytes + [b]) == LittleEndian(bytes) + Shl(b, 8 * |bytes|)
  {
    if bytes == [] {
    } else {
      var p := Pow2(8 * |bytes[1..]|);
      LittleEndianAppend(bytes[1..], b);
      assert (bytes + [b])[1..] == bytes[1..] + [b];
      Pow2Values();
      Pow2Add(8, 8 * |bytes[1..]|);
      MulRegroup(b, p);
    }
  }

  /** The two halves of the bytes of a pair are the two children of its node. */
  lemma PairOf(ix: Index, node: nat, right: bool)
    requires ix.HasNode(node)
    ensures var pair := ix.bytes[ix.At(node)..ix.At(node) + ix.PairLength()];
            var at := if right then ix.recordLength else 0;
            LittleEndian(pair[at..at + ix.recordLength]) == ix.Child(node, right)
  {
    SliceOfSlice(ix.bytes, ix.At(node), ix.PairLength(), if right then ix.recordLength else 0, ix.recordLength);
  }

  lemma SliceOfSlice(bytes: seq<Byte>, from: nat, length: nat, at: nat, count: nat)
    requires from + length <= |bytes| && at + count <= length
    ensures bytes[from..from + length][at..at + count] == bytes[from + at..from + at + count]
  {
    var whole, part := bytes[from..from + length][at..at + count], bytes[from + at..from + at + count];
    assert |whole| == |part| == count;
    assert forall k | 0 <= k < count :: whole[k] == part[k];
  }

  lemma MulRegroup(b: nat, p: nat)
    ensures 256 * (b * p) == b * (256 * p)
  {
  }
}
