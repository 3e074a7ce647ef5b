/**
 City records: parsing one record and iterating over all of them.
 */
module City {
  import opened Bits
  import opened Bytes
  import opened Trie
  import opened Structure
  import opened Handle
  import opened Utf8
  import opened Names

  const FULL_RECORD_LENGTH: nat := 50

  /** The index of "US" in the country code table, the only code that compares equal to it. */
  const US_COUNTRY: Byte := 225

  // ---------------------------------------------------------------- the record format

  /** A record as the content section stores it; coordinates and the combined metro and area code are 24-bit numbers. */
  datatype CityRecord = CityRecord(
    country: Byte, region: CString, city: CString, postalCode: CString,
    latitude: nat, longitude: nat, metroArea: nat)

  /** Only US records of the Rev 1 editions carry a metro and area code. */
  predicate HasMetroArea(rev1: bool, country: Byte) {
    rev1 && country == US_COUNTRY
  }

  ghost predicate WellFormed(c: CityRecord, rev1: bool) {
    && c.latitude < Pow2(24) && c.longitude < Pow2(24) && c.metroArea < Pow2(24)
    && (!HasMetroArea(rev1, c.country) ==> c.metroArea == 0)
  }

  /** Coordinates and, where there is one, the metro and area code. */
  function EncodeNumbers(c: CityRecord, rev1: bool): seq<Byte> {
    LittleEndianBytes(c.latitude, 3) + LittleEndianBytes(c.longitude, 3)
    + if HasMetroArea(rev1, c.country) then LittleEndianBytes(c.metroArea, 3) else []
  }

  function EncodeCity(c: CityRecord, rev1: bool): seq<Byte> {
    [c.country] + (c.region + [0]) + (c.city + [0]) + (c.postalCode + [0]) + EncodeNumbers(c, rev1)
  }

  /** The record at the start of a buffer and its length; None when parsing it would leave the buffer. */
  function ParseCity(buf: seq<Byte>, rev1: bool): Option<(CityRecord, nat)> {
    if buf == [] then None
    else
      match CStringAt(buf, 1)
      case None => None
      case Some(region) =>
        var cityAt := 1 + |region| + 1;
        match CStringAt(buf, cityAt)
        case None => None
        case Some(city) =>
          var postalAt := cityAt + |city| + 1;
          match CStringAt(buf, postalAt)
          case None => None
          case Some(postal) =>
            ParseNumbers(buf, postalAt + |postal| + 1, CityRecord(buf[0], region, city, postal, 0, 0, 0), rev1)
  }

  function ParseNumbers(buf: seq<Byte>, at: nat, c: CityRecord, rev1: bool): Option<(CityRecord, nat)> {
    var end := at + if HasMetroArea(rev1, c.country) then 9 else 6;
    if end > |buf| then None
    else
      Some((c.(latitude := LittleEndian(buf[at..at + 3]),
               longitude := LittleEndian(buf[at + 3..at + 6]),
               metroArea := if HasMetroArea(rev1, c.country) then LittleEndian(buf[at + 6..at + 9]) else 0),
            end))
  }

  // ---------------------------------------------------------------- parsing inverts encoding

  lemma ThreeBytes(buf: seq<Byte>, at: nat, n: nat)
    requires at + 3 <= |buf|
    ensures n < Pow2(24) && buf[at..at + 3] == LittleEndianBytes(n, 3) <==> n == LittleEndian(buf[at..at + 3])
  {
    LittleEndianBound(buf[at..at + 3]);
    if n < Pow2(24) {
      LittleEndianRoundTrip(n, 3);
    }
    BytesOfLittleEndian(buf[at..at + 3]);
  }

  lemma {:induction false} BytesOfLittleEndian(s: seq<Byte>)
    ensures LittleEndianBytes(LittleEndian(s), |s|) == s
  {
    if s != [] {
      var n := LittleEndian(s[1..]);
      DivModUnique(LittleEndian(s), 256, n, s[0]);
      BytesOfLittleEndian(s[1..]);
      assert s == [s[0]] + s[1..];
    }
  }

  /** The numbers parse to exactly the record that encodes to them. */
  lemma ParseNumbersIff(buf: seq<Byte>, at: nat, c: CityRecord, r: CityRecord, rev1: bool)
    requires r == c.(latitude := r.latitude, longitude := r.longitude, metroArea := r.metroArea)
    ensures ParseNumbers(buf, at, c, rev1) == Some((r, at + |EncodeNumbers(r, rev1)|))
       <==> WellFormed(r, rev1) && at + |EncodeNumbers(r, rev1)| <= |buf|
            && buf[at..at + |EncodeNumbers(r, rev1)|] == EncodeNumbers(r, rev1)
  {
    var n := |EncodeNumbers(r, rev1)|;
    assert n == if HasMetroArea(rev1, c.country) then 9 else 6;
    if at + n <= |buf| {
      ThreeBytes(buf, at, r.latitude);
      ThreeBytes(buf, at + 3, r.longitude);
      if HasMetroArea(rev1, c.country) {
        ThreeBytes(buf, at + 6, r.metroArea);
      }
      NumbersStand(buf, at, r, rev1);
    }
  }

  lemma NumbersStand(buf: seq<Byte>, at: nat, r: CityRecord, rev1: bool)
    requires at + |EncodeNumbers(r, rev1)| <= |buf|
    ensures buf[at..at + |EncodeNumbers(r, rev1)|] == EncodeNumbers(r, rev1)
       <==> && buf[at..at + 3] == LittleEndianBytes(r.latitude, 3)
            && buf[at + 3..at + 6] == LittleEndianBytes(r.longitude, 3)
            && (HasMetroArea(rev1, r.country) ==> buf[at + 6..at + 9] == LittleEndianBytes(r.metroArea, 3))
  {
    var latitude, longitude := LittleEndianBytes(r.latitude, 3), LittleEndianBytes(r.longitude, 3);
    SliceConcat(buf, at, latitude, longitude);
    if HasMetroArea(rev1, r.country) {
      SliceConcat(buf, at, latitude + longitude, LittleEndianBytes(r.metroArea, 3));
    } else {
      assert EncodeNumbers(r, rev1) == latitude + longitude;
    }
  }

  lemma SliceConcat(buf: seq<Byte>, at: nat, a: seq<Byte>, b: seq<Byte>)
    requires at + |a| + |b| <= |buf|
    ensures buf[at..at + |a| + |b|] == a + b <==> buf[at..at + |a|] == a && buf[at + |a|..at + |a| + |b|] == b
  {
    StandsConcat(buf, at, a, b);
    StandsIsSlice(buf, at, a + b);
    StandsIsSlice(buf, at, a);
    StandsIsSlice(buf, at + |a|, b);
  }

  lemma SplitAt(buf: seq<Byte>, n: nat, a: seq<Byte>, b: seq<Byte>)
    requires n == |a| + |b| <= |buf|
    ensures buf[..n] == a + b <==> buf[..|a|] == a && buf[|a|..n] == b
  {
    SliceConcat(buf, 0, a, b);
    assert buf[0..n] == buf[..n] && buf[0..|a|] == buf[..|a|];
  }

  lemma StringIff(buf: seq<Byte>, at: nat, s: CString)
    requires at + |s| + 1 <= |buf|
    ensures buf[at..at + |s| + 1] == s + [0] <==> CStringAt(buf, at) == Some(s)
  {
    CStringAtIff(buf, at, s);
    var part := buf[at..at + |s| + 1];
    assert part == buf[at..at + |s|] + [buf[at + |s|]];
    if part == s + [0] {
      assert part[..|s|] == s && part[|s|] == 0;
    }
  }

  /** A string field stands behind a prefix exactly when the scan behind that prefix finds it. */
  lemma FieldIff(buf: seq<Byte>, prefix: seq<Byte>, s: CString)
    requires |prefix| + |s| + 1 <= |buf|
    ensures buf[..|prefix| + |s| + 1] == prefix + (s + [0])
       <==> buf[..|prefix|] == prefix && CStringAt(buf, |prefix|) == Some(s)
  {
    SplitAt(buf, |prefix| + |s| + 1, prefix, s + [0]);
    StringIff(buf, |prefix|, s);
  }

  function NumbersAt(r: CityRecord): nat {
    1 + |r.region| + 1 + |r.city| + 1 + |r.postalCode| + 1
  }

  /** The country byte and the three strings stand where the scans look for them. */
  predicate StringsStand(buf: seq<Byte>, r: CityRecord) {
    && buf != [] && buf[0] == r.country
    && CStringAt(buf, 1) == Some(r.region)
    && CStringAt(buf, 1 + |r.region| + 1) == Some(r.city)
    && CStringAt(buf, 1 + |r.region| + 1 + |r.city| + 1) == Some(r.postalCode)
  }

  function EncodeStrings(r: CityRecord): seq<Byte> {
    [r.country] + (r.region + [0]) + (r.city + [0]) + (r.postalCode + [0])
  }

  lemma StringsIff(buf: seq<Byte>, r: CityRecord)
    requires NumbersAt(r) <= |buf|
    ensures |EncodeStrings(r)| == NumbersAt(r)
    ensures buf[..NumbersAt(r)] == EncodeStrings(r) <==> StringsStand(buf, r)
  {
    var p0 := [r.country];
    var p1 := p0 + (r.region + [0]);
    var p2 := p1 + (r.city + [0]);
    FieldIff(buf, p2, r.postalCode);
    FieldIff(buf, p1, r.city);
    FieldIff(buf, p0, r.region);
    assert buf[..1] == [buf[0]];
  }

  /** An encoded record stands at the start of a buffer exactly when its fields stand one behind the other. */
  lemma EncodingIff(buf: seq<Byte>, r: CityRecord, rev1: bool)
    requires |EncodeCity(r, rev1)| <= |buf|
    ensures var n := NumbersAt(r) + |EncodeNumbers(r, rev1)|;
            && n == |EncodeCity(r, rev1)|
            && (buf[..n] == EncodeCity(r, rev1)
                <==> StringsStand(buf, r) && buf[NumbersAt(r)..n] == EncodeNumbers(r, rev1))
  {
    assert EncodeCity(r, rev1) == EncodeStrings(r) + EncodeNumbers(r, rev1);
    assert |EncodeStrings(r)| == NumbersAt(r);
    SplitAt(buf, |EncodeCity(r, rev1)|, EncodeStrings(r), EncodeNumbers(r, rev1));
    StringsIff(buf, r);
  }

  /** What the parser does, in terms of where the fields stand. */
  lemma ParseCityStands(buf: seq<Byte>, r: CityRecord, rev1: bool)
    ensures StringsStand(buf, r) ==>
              ParseCity(buf, rev1) == ParseNumbers(
                buf, NumbersAt(r), CityRecord(r.country, r.region, r.city, r.postalCode, 0, 0, 0), rev1)
    ensures forall n: nat | ParseCity(buf, rev1) == Some((r, n)) ::
              StringsStand(buf, r) && n == NumbersAt(r) + |EncodeNumbers(r, rev1)|
  {
  }

  /** Parsing and encoding are inverse to each other: the parser yields a record and a length exactly for the buffers
      that start with the encoding of that record, and reads neither less nor more than it. */
  lemma ParseCityIff(buf: seq<Byte>, r: CityRecord, n: nat, rev1: bool)
    ensures ParseCity(buf, rev1) == Some((r, n))
       <==> WellFormed(r, rev1) && n == |EncodeCity(r, rev1)| <= |buf| && buf[..n] == EncodeCity(r, rev1)
  {
    var fields := CityRecord(r.country, r.region, r.city, r.postalCode, 0, 0, 0);
    assert |EncodeCity(r, rev1)| == NumbersAt(r) + |EncodeNumbers(r, rev1)|;
    ParseCityStands(buf, r, rev1);
    ParseNumbersIff(buf, NumbersAt(r), fields, r, rev1);
    if |EncodeCity(r, rev1)| <= |buf| {
      EncodingIff(buf, r, rev1);
    }
  }

  // ---------------------------------------------------------------- extraction

  /** What a lookup hands out: absent strings for empty ones, the city converted on request. */
  datatype GeoIPRecord = GeoIPRecord(
    country: Byte, region: Option<seq<Byte>>, city: Option<seq<Byte>>, postalCode: Option<seq<Byte>>,
    latitude: nat, longitude: nat, metroCode: nat, areaCode: nat, charset: Charset)

  function Nonempty(s: seq<Byte>): Option<seq<Byte>> {
    if s == [] then None else Some(s)
  }

  function Presented(c: CityRecord, charset: Charset): GeoIPRecord {
    GeoIPRecord(c.country, Nonempty(c.region),
                if c.city == [] then None else Some(Converted(c.city, charset)),
                Nonempty(c.postalCode),
                c.latitude, c.longitude, c.metroArea / 1000, c.metroArea % 1000, charset)
  }

  /** A null result, a record with its encoded length, or a scan
      past the end of the buffer, which C leaves undefined. */
  datatype Extraction = NoRecord | Extracted(record: GeoIPRecord, length: nat) | ScanOverrun

  predicate IsRev1(t: int) { t == CITY_EDITION_REV1 || t == CITY_EDITION_REV1_V6 }

  function ExtractFrom(buf: seq<Byte>, rev1: bool, charset: Charset): Extraction {
    match ParseCity(buf, rev1)
    case None => ScanOverrun
    case Some((c, n)) => Extracted(Presented(c, charset), n)
  }

  /** The bytes of the record at a pointer: a read of 50 bytes from the disk, or the rest of the whole-file cache. */
  function RecordWindow(cache: Option<seq<Byte>>, file: seq<Byte>, pointer: nat): seq<Byte> {
    match cache
    case None =>
      if pointer >= |file| then []
      else file[pointer..if pointer + FULL_RECORD_LENGTH <= |file| then pointer + FULL_RECORD_LENGTH else |file|]
    case Some(bytes) => if pointer >= |bytes| then [] else bytes[pointer..]
  }

  /** The record at a pointer; a negative one is a failed read on
      the disk and an access in front of the cache in memory. */
  function ExtractAtPointer(cache: Option<seq<Byte>>, file: seq<Byte>, rev1: bool, charset: Charset,
                            pointer: int): Extraction {
    if pointer < 0 then (if cache.None? then NoRecord else ScanOverrun)
    else
      var buf := RecordWindow(cache, file, pointer);
      if buf == [] then NoRecord else ExtractFrom(buf, rev1, charset)
  }

  /** `_extract_record` on a handle with the given sources. */
  function ExtractAt(cache: Option<seq<Byte>>, ix: Index, rev1: bool, charset: Charset, seek: nat): Extraction {
    if seek == ix.segments then NoRecord
    else ExtractAtPointer(cache, ix.bytes, rev1, charset, RecordPointer(ix, seek))
  }

  /** The string fields, one scan loop each. */
  method ScanStrings(buf: seq<Byte>, rev1: bool) returns (fields: Option<(CityRecord, nat)>)
    requires buf != []
    ensures ParseCity(buf, rev1) ==
            match fields
            case None => None
            case Some((c, at)) => ParseNumbers(buf, at, c, rev1)
    ensures fields.Some? ==> fields.value.1 <= |buf|
  {
    var at := 1;
    var region := ScanString(buf, at);
    if region == None {
      return None;
    }
    CStringAtIff(buf, at, region.value);
    at := at + |region.value| + 1;
    var city := ScanString(buf, at);
    if city == None {
      return None;
    }
    CStringAtIff(buf, at, city.value);
    at := at + |city.value| + 1;
    var postal := ScanString(buf, at);
    if postal == None {
      return None;
    }
    CStringAtIff(buf, at, postal.value);
    at := at + |postal.value| + 1;
    return Some((CityRecord(buf[0], region.value, city.value, postal.value, 0, 0, 0), at));
  }

  /** `for (j = 0; j < 3; ++j) x += record_buf[j] << (j * 8)`. */
  method ReadThreeBytes(buf: seq<Byte>, at: nat) returns (x: nat)
    requires at + 3 <= |buf|
    ensures x == LittleEndian(buf[at..at + 3])
  {
    x := DecodeThreeBytes(buf[at..at + 3]);
  }

  /** Coordinates, and the metro and area code of US records; `end` is the source's `record_buf + 3`. */
  method ReadNumbers(buf: seq<Byte>, at: nat, c: CityRecord, rev1: bool) returns (numbers: Option<(CityRecord, nat)>)
    requires at <= |buf|
    ensures numbers == ParseNumbers(buf, at, c, rev1)
  {
    if at + 6 > |buf| {
      return None;
    }
    var latitude := ReadThreeBytes(buf, at);
    var next := at + 3;
    var longitude := ReadThreeBytes(buf, next);
    var metroArea := 0;
    if rev1 {
      if c.country == US_COUNTRY {
        next := next + 3;
        if next + 3 > |buf| {
          return None;
        }
        metroArea := ReadThreeBytes(buf, next);
      }
    }
    return Some((c.(latitude := latitude, longitude := longitude, metroArea := metroArea), next + 3));
  }

  /** The fields of the result: strings are copied when they are not empty, the city through the conversion. */
  method Present(c: CityRecord, charset: Charset) returns (r: GeoIPRecord)
    ensures r == Presented(c, charset)
  {
    var city: Option<seq<Byte>> := None;
    if |c.city| > 0 {
      if charset == Charset.Utf8 {
        var p := Iso88591ToUtf8(c.city);
        city := Some(p[..p.Length - 1]);
      } else {
        city := Some(c.city);
      }
    }
    return GeoIPRecord(
        c.country, if |c.region| > 0 then Some(c.region) else None, city,
        if |c.postalCode| > 0 then Some(c.postalCode) else None,
        c.latitude, c.longitude, c.metroArea / 1000, c.metroArea % 1000, charset);
  }

  /** The parse of `_extract_record`. */
  method ExtractRecordFrom(buf: seq<Byte>, rev1: bool, charset: Charset) returns (x: Extraction)
    requires buf != []
    ensures x == ExtractFrom(buf, rev1, charset)
  {
    var fields := ScanStrings(buf, rev1);
    if fields == None {
      return ScanOverrun;
    }
    var numbers := ReadNumbers(buf, fields.value.1, fields.value.0, rev1);
    if numbers == None {
      return ScanOverrun;
    }
    var record := Present(numbers.value.0, charset);
    return Extracted(record, numbers.value.1);
  }

  /** The choice of the buffer in `_extract_record`, and the parse. */
  method ReadRecord(cache: Option<seq<Byte>>, file: seq<Byte>, rev1: bool, charset: Charset, pointer: int)
    returns (x: Extraction)
    ensures x == ExtractAtPointer(cache, file, rev1, charset, pointer)
  {
    var buf: seq<Byte>;
    if cache == None {
      var bytes := Pread(file, FULL_RECORD_LENGTH, pointer);
      if bytes == None || |bytes.value| <= 0 {
        return NoRecord;
      }
      buf := bytes.value;
    } else {
      if |cache.value| <= pointer {
        return NoRecord;
      }
      if pointer < 0 {
        return ScanOverrun;
      }
      buf := cache.value[pointer..];
    }
    x := ExtractRecordFrom(buf, rev1, charset);
  }

  /** `_extract_record`; the length is what it adds to the caller's iterator. */
  method ExtractRecord(gi: GeoIP, seek: nat) returns (x: Extraction)
    requires gi.Walkable()
    ensures x == ExtractAt(gi.cache, gi.Index(), IsRev1(gi.databaseType), gi.charset, seek)
    ensures x.Extracted? ==>
              IsStoredAt(x, gi.database, RecordPointer(gi.Index(), seek), IsRev1(gi.databaseType), gi.charset)
  {
    if seek == gi.databaseSegments.value {
      return NoRecord;
    }
    var recordPointer := ToInt32(seek + (2 * gi.recordLength - 1) * gi.databaseSegments.value);
    PointerSum(gi.Index(), seek);
    x := ReadRecord(gi.cache, gi.database, IsRev1(gi.databaseType), gi.charset, recordPointer);
    if x.Extracted? {
      ExtractedIsStored(gi.cache, gi.database, IsRev1(gi.databaseType), gi.charset, recordPointer);
    }
  }

  /** The record of an address, for a handle of a City edition. */
  function RecordFor(core: Core, charset: Charset, w: nat, num: nat): Extraction {
    ExtractAt(core.cache, core.Index(), IsRev1(core.databaseType), charset, Lookup(core.Index(), w, num).Value())
  }

  /** `_get_record_gl` behind its reload check: the record of an address, and the prefix length that its caller
      reads from it, which after a failed lookup is the one that the result object held before the call. */
  method GetRecord(gi: GeoIP, ipnum: nat, gl: GeoIPLookup) returns (x: Extraction, netmask: int)
    requires gi.Walkable() && ipnum < TWO_TO_THE_32
    modifies gi`netmask, gl
    ensures x == if gi.databaseType in {2, 6} then RecordFor(gi.CoreOf(), gi.charset, 32, ipnum) else NoRecord
    ensures x.Extracted? ==>
              var pointer := RecordPointer(gi.Index(), Lookup(gi.Index(), IPV4_BITS, ipnum).Value());
              IsStoredAt(x, gi.database, pointer, gi.databaseType == 2, gi.charset)
    ensures x.Extracted? ==>
              netmask == match Lookup(gi.Index(), IPV4_BITS, ipnum)
                         case Found(_, m) => m
                         case Lost => old(gl.netmask)
  {
    netmask := 0;
    if gi.databaseType != CITY_EDITION_REV0 && gi.databaseType != CITY_EDITION_REV1 {
      return NoRecord, netmask;
    }
    var seek := gi.SeekRecord(ipnum, gl);
    x := ExtractRecord(gi, seek);
    if x.Extracted? {
      netmask := gl.netmask;
    }
  }

  /** More bytes behind a parsed record change nothing. */
  lemma ParseIgnoresTail(buf: seq<Byte>, longer: seq<Byte>, rev1: bool)
    requires buf <= longer && ParseCity(buf, rev1).Some?
    ensures ParseCity(longer, rev1) == ParseCity(buf, rev1)
  {
    var r, n := ParseCity(buf, rev1).value.0, ParseCity(buf, rev1).value.1;
    ParseCityIff(buf, r, n, rev1);
    assert longer[..n] == buf[..n];
    ParseCityIff(longer, r, n, rev1);
  }

  /** What disk mode extracts with its 50-byte read, memory mode extracts too; and disk
      mode extracts exactly the records that stand at the pointer with at most 50 bytes. */
  lemma RecordModesAgree(file: seq<Byte>, rev1: bool, charset: Charset, pointer: nat)
    ensures ExtractAtPointer(None, file, rev1, charset, pointer).Extracted? ==>
              ExtractAtPointer(Some(file), file, rev1, charset, pointer)
              == ExtractAtPointer(None, file, rev1, charset, pointer)
    ensures ExtractAtPointer(None, file, rev1, charset, pointer).Extracted?
       <==> exists r, code :: IsStored(r, code, rev1) && StandsAt(file, pointer, code)
  {
    var disk := RecordWindow(None, file, pointer);
    if ParseCity(disk, rev1).Some? {
      ParseIgnoresTail(disk, RecordWindow(Some(file), file, pointer), rev1);
      var r, n := ParseCity(disk, rev1).value.0, ParseCity(disk, rev1).value.1;
      ParseCityIff(disk, r, n, rev1);
      assert disk[..n] == file[pointer..pointer + n];
      StandsIsSlice(file, pointer, disk[..n]);
      assert IsStored(r, disk[..n], rev1);
    }
    forall r, code | IsStored(r, code, rev1) && StandsAt(file, pointer, code)
      ensures ExtractAtPointer(None, file, rev1, charset, pointer).Extracted?
    {
      StandsIsSlice(file, pointer, code);
      ExtractStanding(file, rev1, charset, pointer, r, code);
    }
  }

  // ---------------------------------------------------------------- what a returned record says

  /** The returned record `g` shows the stored record `c`: absent strings for empty ones, the city
      in the character set of the handle, and the combined number split into metro and area code. */
  ghost predicate Shows(g: GeoIPRecord, c: CityRecord, charset: Charset) {
    && g.country == c.country && g.latitude == c.latitude && g.longitude == c.longitude
    && (if c.region == [] then g.region.None? else g.region == Some(c.region))
    && (if c.postalCode == [] then g.postalCode.None? else g.postalCode == Some(c.postalCode))
    && (if c.city == [] then g.city.None? else g.city.Some? && Renders(g.city.value, c.city, charset))
    && g.metroCode * 1000 + g.areaCode == c.metroArea && g.areaCode < 1000
    && g.charset == charset
  }

  lemma PresentedShows(c: CityRecord, charset: Charset)
    ensures Shows(Presented(c, charset), c, charset)
  {
    ConvertedRenders(c.city, charset);
  }

  /** A returned record shows one stored record only. */
  lemma ShowsUnique(g: GeoIPRecord, c: CityRecord, d: CityRecord, charset: Charset)
    requires Shows(g, c, charset) && Shows(g, d, charset)
    ensures c == d
  {
    if g.city.Some? {
      RendersUnique(g.city.value, c.city, d.city, charset);
    }
  }

  /** An extraction of `n` bytes that shows the stored record `c`. */
  ghost predicate Yields(x: Extraction, c: CityRecord, n: nat, charset: Charset) {
    x.Extracted? && x.length == n && Shows(x.record, c, charset)
  }

  lemma ExtractFromIff(buf: seq<Byte>, rev1: bool, charset: Charset, c: CityRecord, n: nat)
    ensures Yields(ExtractFrom(buf, rev1, charset), c, n, charset) <==> ParseCity(buf, rev1) == Some((c, n))
  {
    if ParseCity(buf, rev1).Some? {
      var d := ParseCity(buf, rev1).value.0;
      PresentedShows(d, charset);
      if Shows(Presented(d, charset), c, charset) {
        ShowsUnique(Presented(d, charset), c, d, charset);
      }
    }
  }

  /** Which record is extracted at a pointer, in both modes: exactly the one whose encoding stands
      there, on the disk if it has at most 50 bytes, and the length is that of the encoding. */
  lemma ExtractionIff(cache: Option<seq<Byte>>, file: seq<Byte>, rev1: bool, charset: Charset, pointer: nat,
                      c: CityRecord, n: nat)
    requires cache.Some? ==> cache.value == file
    ensures Yields(ExtractAtPointer(cache, file, rev1, charset, pointer), c, n, charset)
       <==> && WellFormed(c, rev1) && n == |EncodeCity(c, rev1)|
            && StandsAt(file, pointer, EncodeCity(c, rev1)) && (cache.None? ==> n <= 50)
  {
    var window := RecordWindow(cache, file, pointer);
    var code := EncodeCity(c, rev1);
    ParseCityIff(window, c, n, rev1);
    if window != [] {
      ExtractFromIff(window, rev1, charset, c, n);
    }
    StandsIsSlice(file, pointer, code);
    if n == |code| <= |window| {
      assert window[..n] == file[pointer..pointer + n];
    }
  }

  /** Where the fields of a stored record stand: byte 0 is the country, three strings with their NULs follow, then three
      bytes of latitude and three of longitude, and in the editions 2 and 30 three more for country 225, the US. */
  lemma FieldsOfEncoding(c: CityRecord, t: int)
    ensures var code := EncodeCity(c, IsRev1(t));
            var city := |c.region| + 2;
            var postalCode := city + |c.city| + 1;
            var numbers := postalCode + |c.postalCode| + 1;
            && |code| == numbers + (if t in {2, 30} && c.country == 225 then 9 else 6)
            && code[0] == c.country
            && StandsAt(code, 1, c.region + [0])
            && StandsAt(code, city, c.city + [0])
            && StandsAt(code, postalCode, c.postalCode + [0])
            && StandsAt(code, numbers, LittleEndianBytes(c.latitude, 3))
            && StandsAt(code, numbers + 3, LittleEndianBytes(c.longitude, 3))
            && (t in {2, 30} && c.country == 225 ==> StandsAt(code, numbers + 6, LittleEndianBytes(c.metroArea, 3)))
  {
  }

  /** What is extracted shows a record whose encoding stands at the pointer. */
  ghost predicate IsStoredAt(x: Extraction, file: seq<Byte>, pointer: int, rev1: bool, charset: Charset) {
    exists c ::
      && pointer >= 0 && WellFormed(c, rev1)
      && StandsAt(file, pointer, EncodeCity(c, rev1)) && Yields(x, c, |EncodeCity(c, rev1)|, charset)
  }

  lemma ExtractedIsStored(cache: Option<seq<Byte>>, file: seq<Byte>, rev1: bool, charset: Charset, pointer: int)
    requires cache.Some? ==> cache.value == file
    requires ExtractAtPointer(cache, file, rev1, charset, pointer).Extracted?
    ensures IsStoredAt(ExtractAtPointer(cache, file, rev1, charset, pointer), file, pointer, rev1, charset)
  {
    var (c, n) := ParseCity(RecordWindow(cache, file, pointer), rev1).value;
    PresentedShows(c, charset);
    ExtractionIff(cache, file, rev1, charset, pointer, c, n);
  }

  // ---------------------------------------------------------------- null records

  lemma ExtractIsNullIff(cache: Option<seq<Byte>>, file: seq<Byte>, rev1: bool, charset: Charset, pointer: nat)
    requires cache.Some? ==> cache.value == file
    ensures ExtractAtPointer(cache, file, rev1, charset, pointer) == NoRecord <==> pointer >= |file|
  {
  }

  /** With 3-byte records, as in every City edition, no pointer overflows. */
  lemma ShortPointer(ix: Index, w: nat, num: nat)
    requires ix.Valid() && ix.recordLength == 3
    ensures var seek := Lookup(ix, w, num).Value();
            RecordPointer(ix, seek) == ix.At(ix.segments) + seek - ix.segments >= 0
  {
    Pow2Values();
    if Lookup(ix, w, num).Found? {
      DescendValueBound(ix, w, num, w, 0);
    }
    RecordPointerIsPastIndex(ix, Lookup(ix, w, num).Value());
  }

  /** When a record is null: for the first value, for a value that points behind the
      file, and for a failed lookup in a file without segments.  A failed lookup in
      any other file makes the library parse a record from inside the index. */
  lemma RecordIsNullIff(file: FileVersion, flags: Flags, charset: Charset, w: nat, num: nat)
    requires OpenCore(file, flags).Some?
    requires var core := OpenCore(file, flags).value; HasContent(core.databaseType) && core.recordLength == 3
    ensures var core := OpenCore(file, flags).value;
            var ix := core.Index();
            RecordFor(core, charset, w, num) == NoRecord <==>
              match Lookup(ix, w, num)
              case Lost => ix.segments == 0
              case Found(v, _) => v == ix.segments || ix.At(ix.segments) + (v - ix.segments) >= |file.content|
  {
    var core := OpenCore(file, flags).value;
    var ix := core.Index();
    OpenedIndex(file, flags);
    ShortPointer(ix, w, num);
    var seek := Lookup(ix, w, num).Value();
    if seek != ix.segments {
      ExtractAtItsPointer(core.cache, ix, IsRev1(core.databaseType), charset, seek, RecordPointer(ix, seek));
    }
    ExtractIsNullIff(core.cache, ix.bytes, IsRev1(core.databaseType), charset, RecordPointer(ix, seek));
  }

  /** One node that is its own child on both sides, eleven more
      zeros, and the marker of the City edition with one segment. */
  const LOOPING_CITY_FILE: seq<Byte> :=
    [0, 0, 0, 0, 0, 0, 0, 0, 0, 0, 0, 0, 0, 0, 0, 0, 0] + [255, 255, 255] + [2, 1, 0, 0]

  const ZERO_RECORD := CityRecord(0, [], [], [], 0, 0, 0)

  lemma LoopingCityFileLayout()
    ensures LayoutOf(LOOPING_CITY_FILE) == Some(Layout(CITY_EDITION_REV1, 3, 1))
    ensures IndexSize(LOOPING_CITY_FILE, Layout(CITY_EDITION_REV1, 3, 1)) == Some(6)
  {
    var trailer: seq<Byte> := [2, 1, 0, 0];
    MarkedLayout([0, 0, 0, 0, 0, 0, 0, 0, 0, 0, 0, 0, 0, 0, 0, 0, 0], trailer);
    assert trailer[1..4] == [1, 0, 0];
    assert LittleEndian([0, 0]) == 0;
    assert [1, 0, 0][1..] == [0, 0];
    assert LittleEndian([1, 0, 0]) == 1;
  }

  lemma ZeroRecordStands()
    ensures |EncodeCity(ZERO_RECORD, true)| == 10
    ensures IsStored(ZERO_RECORD, EncodeCity(ZERO_RECORD, true), true)
    ensures StandsAt(LOOPING_CITY_FILE, 5, EncodeCity(ZERO_RECORD, true))
  {
    Pow2Values();
    assert LittleEndianBytes(0, 3) == [0, 0, 0];
    assert EncodeCity(ZERO_RECORD, true) == [0, 0, 0, 0, 0, 0, 0, 0, 0, 0];
  }

  lemma LoopingCityFileIsLost(w: nat, num: nat)
    ensures Lookup(Index(LOOPING_CITY_FILE, 3, 1), w, num).Lost?
  {
    var ix := Index(LOOPING_CITY_FILE, 3, 1);
    assert ix.bytes[0..3] == [0, 0, 0] && ix.bytes[3..6] == [0, 0, 0];
    ZerosAreZero([0, 0, 0]);
    SelfLoopIsLost(ix, w, num, w);
  }

  /** A failed lookup does not give a null record: this file opens in every storage mode, every
      lookup in it fails, and the zeros around the end of the index are returned as a record. */
  lemma FailedLookupStillReadsARecord(mtime: int, flags: Flags, charset: Charset, w: nat, num: nat)
    ensures var core := OpenCore(FileVersion(LOOPING_CITY_FILE, mtime), flags);
            && core.Some? && core.value.databaseType == CITY_EDITION_REV1
            && Lookup(core.value.Index(), w, num).Lost?
            && RecordFor(core.value, charset, w, num) == Extracted(Presented(ZERO_RECORD, charset), 10)
  {
    LoopingCityFileLayout();
    var core := OpenCore(FileVersion(LOOPING_CITY_FILE, mtime), flags).value;
    var ix := core.Index();
    LoopingCityFileIsLost(w, num);
    assert RecordPointer(ix, 0) == 5;
    ZeroRecordStands();
    var x := Extracted(Presented(ZERO_RECORD, charset), 10);
    ExtractGiven(ix, true, charset, 0, 5, ZERO_RECORD, EncodeCity(ZERO_RECORD, true), x);
  }

  // ---------------------------------------------------------------- iteration

  /** `GeoIP_init_record_iter`: the record pointer of the iterator
      is byte 1 of the content section, behind all pairs. */
  method InitRecordIter(gi: GeoIP) returns (iter: nat)
    requires gi.Walkable()
    ensures RecordPointer(gi.Index(), iter) == gi.Index().At(gi.Index().segments) + 1
    ensures iter == gi.Index().segments + 1
  {
    Pow2Values();
    PointerOfIterator(gi.Index(), 0);
    return gi.databaseSegments.value + 1;
  }

  /** `GeoIP_next_record`: status 1 is the refusal in memory cache mode. */
  method NextRecord(gi: GeoIP, recordIter: nat) returns (status: int, gir: Extraction, next: nat)
    requires gi.Walkable()
    ensures gi.cache.Some? ==> status == 1 && gir == NoRecord && next == recordIter
    ensures gi.cache.None? ==>
              && status == 0
              && gir == ExtractAt(None, gi.Index(), IsRev1(gi.databaseType), gi.charset, recordIter)
              && next == if gir.Extracted? then recordIter + gir.length else recordIter
  {
    if gi.cache != None {
      return 1, NoRecord, recordIter;
    }
    gir := ExtractRecord(gi, recordIter);
    status := 0;
    next := if gir.Extracted? then recordIter + gir.length else recordIter;
  }

  /** Byte strings laid end to end. */
  function Concat(codes: seq<seq<Byte>>): seq<Byte> {
    if codes == [] then [] else Concat(codes[..|codes| - 1]) + codes[|codes| - 1]
  }

  lemma ConcatStep(codes: seq<seq<Byte>>, k: nat)
    requires k < |codes|
    ensures Concat(codes[..k + 1]) == Concat(codes[..k]) + codes[k]
  {
    assert codes[..k + 1][..k] == codes[..k];
  }

  lemma {:induction false} ConcatPrefix(codes: seq<seq<Byte>>, k: nat)
    requires k <= |codes|
    ensures Concat(codes[..k]) <= Concat(codes)
    decreases |codes| - k
  {
    if k == |codes| {
      assert codes[..k] == codes;
    } else {
      ConcatStep(codes, k);
      ConcatPrefix(codes, k + 1);
    }
  }

  lemma ConcatAt(codes: seq<seq<Byte>>, k: nat)
    requires k < |codes|
    ensures var at := |Concat(codes[..k])|;
            at + |codes[k]| <= |Concat(codes)| && Concat(codes)[at..at + |codes[k]|] == codes[k]
  {
    ConcatStep(codes, k);
    ConcatPrefix(codes, k + 1);
    var (a, n) := (Concat(codes[..k]), |codes[k]|);
    assert Concat(codes)[..|a| + n] == a + codes[k];
    assert Concat(codes)[|a|..|a| + n] == Concat(codes)[..|a| + n][|a|..];
  }

  /** `code` is the encoding of `r`, short enough for the read buffer of disk mode. */
  ghost predicate IsStored(r: CityRecord, code: seq<Byte>, rev1: bool) {
    WellFormed(r, rev1) && code == EncodeCity(r, rev1) && |code| <= 50
  }

  /** A database whose content section holds the given records, encoded as `codes`, end to end behind its first byte. */
  ghost predicate HoldsRecords(ix: Index, records: seq<CityRecord>, codes: seq<seq<Byte>>, rev1: bool) {
    && ix.Valid() && |ix.bytes| < 0x8000_0000
    && |codes| == |records|
    && (forall k | 0 <= k < |records| :: IsStored(records[k], codes[k], rev1))
    && StandsAt(ix.bytes, ix.At(ix.segments) + 1, Concat(codes))
  }

  /** The iterator in front of record `k`. */
  function IterAt(ix: Index, codes: seq<seq<Byte>>, k: nat): nat
    requires k <= |codes|
  {
    ix.segments + 1 + |Concat(codes[..k])|
  }

  lemma PointerOfIterator(ix: Index, before: nat)
    requires ix.Valid() && ix.At(ix.segments) + 1 + before < 0x8000_0000
    ensures RecordPointer(ix, ix.segments + 1 + before) == ix.At(ix.segments) + 1 + before
  {
  }

  /** A record that stands in the file is parsed from any window that starts with it and holds all of it. */
  lemma RecordStands(file: seq<Byte>, pointer: nat, limit: nat, r: CityRecord, rev1: bool)
    requires WellFormed(r, rev1) && |EncodeCity(r, rev1)| <= limit
    requires pointer + |EncodeCity(r, rev1)| <= |file|
    requires file[pointer..pointer + |EncodeCity(r, rev1)|] == EncodeCity(r, rev1)
    ensures var end := if pointer + limit <= |file| then pointer + limit else |file|;
            file[pointer..end] != [] && ParseCity(file[pointer..end], rev1) == Some((r, |EncodeCity(r, rev1)|))
  {
    var end := if pointer + limit <= |file| then pointer + limit else |file|;
    var window := file[pointer..end];
    assert window[..|EncodeCity(r, rev1)|] == file[pointer..pointer + |EncodeCity(r, rev1)|];
    ParseCityIff(window, r, |EncodeCity(r, rev1)|, rev1);
  }

  /** A record that stands at a pointer is extracted in both modes. */
  lemma ExtractStanding(file: seq<Byte>, rev1: bool, charset: Charset, pointer: nat, r: CityRecord, code: seq<Byte>)
    requires IsStored(r, code, rev1)
    requires StandsAt(file, pointer, code)
    ensures ExtractAtPointer(None, file, rev1, charset, pointer) == Extracted(Presented(r, charset), |code|)
    ensures ExtractAtPointer(Some(file), file, rev1, charset, pointer) == Extracted(Presented(r, charset), |code|)
  {
    RecordStands(file, pointer, FULL_RECORD_LENGTH, r, rev1);
    RecordStands(file, pointer, |file|, r, rev1);
    assert file[pointer..|file|] == file[pointer..];
  }

  /** The extraction that the layout promises for record `k`. */
  function Promised(records: seq<CityRecord>, codes: seq<seq<Byte>>, charset: Charset, k: nat): Extraction
    requires k < |records| == |codes|
  {
    Extracted(Presented(records[k], charset), |codes[k]|)
  }

  /** The extractions that the layout promises for the first `n` records. */
  function FirstRecords(records: seq<CityRecord>, codes: seq<seq<Byte>>, charset: Charset, n: nat): seq<Extraction>
    requires n <= |records| == |codes|
  {
    seq(n, k requires 0 <= k < n => Promised(records, codes, charset, k))
  }

  lemma RecordInContent(ix: Index, records: seq<CityRecord>, codes: seq<seq<Byte>>, rev1: bool, k: nat)
    requires HoldsRecords(ix, records, codes, rev1) && k < |records|
    ensures StandsAt(ix.bytes, ix.At(ix.segments) + 1 + |Concat(codes[..k])|, codes[k])
  {
    ConcatAt(codes, k);
    StandsInside(ix.bytes, ix.At(ix.segments) + 1, Concat(codes), |Concat(codes[..k])|, codes[k]);
  }

  lemma ExtractGiven(ix: Index, rev1: bool, charset: Charset, seek: nat, pointer: nat, r: CityRecord, code: seq<Byte>,
                     x: Extraction)
    requires seek != ix.segments && RecordPointer(ix, seek) == pointer
    requires IsStored(r, code, rev1) && StandsAt(ix.bytes, pointer, code)
    requires x == Extracted(Presented(r, charset), |code|)
    ensures ExtractAt(None, ix, rev1, charset, seek) == x
    ensures ExtractAt(Some(ix.bytes), ix, rev1, charset, seek) == x
  {
    ExtractStanding(ix.bytes, rev1, charset, pointer, r, code);
    ExtractAtItsPointer(None, ix, rev1, charset, seek, pointer);
    ExtractAtItsPointer(Some(ix.bytes), ix, rev1, charset, seek, pointer);
  }

  lemma ExtractAtItsPointer(cache: Option<seq<Byte>>, ix: Index, rev1: bool, charset: Charset, seek: nat, pointer: int)
    requires seek != ix.segments && RecordPointer(ix, seek) == pointer
    ensures ExtractAt(cache, ix, rev1, charset, seek) == ExtractAtPointer(cache, ix.bytes, rev1, charset, pointer)
  {
  }

  lemma ExtractInContent(ix: Index, rev1: bool, charset: Charset, before: nat, r: CityRecord, code: seq<Byte>,
                         seek: nat, x: Extraction)
    requires ix.Valid() && |ix.bytes| < 0x8000_0000 && IsStored(r, code, rev1)
    requires StandsAt(ix.bytes, ix.At(ix.segments) + 1 + before, code)
    requires seek == ix.segments + 1 + before && x == Extracted(Presented(r, charset), |code|)
    ensures ExtractAt(None, ix, rev1, charset, seek) == x
    ensures ExtractAt(Some(ix.bytes), ix, rev1, charset, seek) == x
  {
    PointerOfIterator(ix, before);
    ExtractGiven(ix, rev1, charset, seek, ix.At(ix.segments) + 1 + before, r, code, x);
  }

  /** One call at the iterator of record `k`: it yields that record and moves by exactly its
      encoded length, and a lookup of the same pointer in memory mode yields the same fields. */
  lemma IterationStep(ix: Index, records: seq<CityRecord>, codes: seq<seq<Byte>>, rev1: bool, charset: Charset, k: nat)
    requires HoldsRecords(ix, records, codes, rev1) && k < |records|
    ensures ExtractAt(None, ix, rev1, charset, IterAt(ix, codes, k)) == Promised(records, codes, charset, k)
    ensures ExtractAt(Some(ix.bytes), ix, rev1, charset, IterAt(ix, codes, k)) == Promised(records, codes, charset, k)
    ensures IterAt(ix, codes, k + 1) == IterAt(ix, codes, k) + |codes[k]|
  {
    ConcatStep(codes, k);
    RecordInContent(ix, records, codes, rev1, k);
    ExtractInContent(ix, rev1, charset, |Concat(codes[..k])|, records[k], codes[k],
                     IterAt(ix, codes, k), Promised(records, codes, charset, k));
  }

  /** The results of `calls` successive calls from `start` on, and
      the iterator behind them; `extract` is one extraction. */
  function Iteration(extract: nat -> Extraction, start: nat, calls: nat): (seq<Extraction>, nat) {
    if calls == 0 then ([], start)
    else
      var (results, iter) := Iteration(extract, start, calls - 1);
      var x := extract(iter);
      (results + [x], if x.Extracted? then iter + x.length else iter)
  }

  lemma {:induction false} IterationFollowsLayout(extract: nat -> Extraction, ix: Index, records: seq<CityRecord>,
                                                  codes: seq<seq<Byte>>, charset: Charset, calls: nat)
    requires calls <= |records| == |codes|
    requires forall k | 0 <= k < |records| :: extract(IterAt(ix, codes, k)) == Promised(records, codes, charset, k)
    ensures Iteration(extract, ix.segments + 1, calls)
         == (FirstRecords(records, codes, charset, calls), IterAt(ix, codes, calls))
  {
    if calls == 0 {
      assert codes[..0] == [];
    } else {
      IterationFollowsLayout(extract, ix, records, codes, charset, calls - 1);
      ConcatStep(codes, calls - 1);
      assert FirstRecords(records, codes, charset, calls)
          == FirstRecords(records, codes, charset, calls - 1) + [Promised(records, codes, charset, calls - 1)];
    }
  }

  /** One extraction in disk mode, as a function of the iterator. */
  function DiskExtractor(ix: Index, rev1: bool, charset: Charset): nat -> Extraction {
    (seek: nat) => ExtractAt(None, ix, rev1, charset, seek)
  }

  lemma DiskExtraction(ix: Index, rev1: bool, charset: Charset, seek: nat)
    ensures DiskExtractor(ix, rev1, charset)(seek) == ExtractAt(None, ix, rev1, charset, seek)
  {
  }

  lemma IterationNext(extract: nat -> Extraction, start: nat, calls: nat, results: seq<Extraction>, iter: nat,
                      x: Extraction)
    requires (results, iter) == Iteration(extract, start, calls) && x == extract(iter)
    ensures Iteration(extract, start, calls + 1) == (results + [x], if x.Extracted? then iter + x.length else iter)
  {
  }

  /** Iteration in disk mode reads back what was laid out: call number
      k yields record number k, for as many records as there are. */
  lemma IterationYieldsRecords(ix: Index, records: seq<CityRecord>, codes: seq<seq<Byte>>, rev1: bool, charset: Charset,
                               calls: nat)
    requires HoldsRecords(ix, records, codes, rev1) && calls <= |records|
    ensures Iteration(DiskExtractor(ix, rev1, charset), ix.segments + 1, calls)
         == (FirstRecords(records, codes, charset, calls), IterAt(ix, codes, calls))
  {
    var extract := DiskExtractor(ix, rev1, charset);
    forall k | 0 <= k < |records|
      ensures extract(IterAt(ix, codes, k)) == Promised(records, codes, charset, k)
    {
      IterationStep(ix, records, codes, rev1, charset, k);
    }
    IterationFollowsLayout(extract, ix, records, codes, charset, calls);
  }

  /** One call of `GeoIP_next_record` in disk mode, as a client that collects the results uses it. */
  method NextOnDisk(gi: GeoIP, iter: nat, ghost extract: nat -> Extraction) returns (gir: Extraction, next: nat)
    requires gi.Walkable() && gi.cache.None?
    requires extract == DiskExtractor(gi.Index(), IsRev1(gi.databaseType), gi.charset)
    ensures gir == extract(iter) && next == if gir.Extracted? then iter + gir.length else iter
  {
    var status: int;
    status, gir, next := NextRecord(gi, iter);
    DiskExtraction(gi.Index(), IsRev1(gi.databaseType), gi.charset, iter);
  }

  /** A client that iterates in disk mode: `calls` calls of `GeoIP_next_record` from the start on. */
  method ReadRecords(gi: GeoIP, calls: nat, ghost extract: nat -> Extraction)
    returns (results: seq<Extraction>, iter: nat)
    requires gi.Walkable() && gi.cache.None?
    requires extract == DiskExtractor(gi.Index(), IsRev1(gi.databaseType), gi.charset)
    ensures (results, iter) == Iteration(extract, gi.Index().segments + 1, calls)
  {
    ghost var start := gi.Index().segments + 1;
    results := [];
    iter := InitRecordIter(gi);
    var call := 0;
    while call < calls
      invariant call <= calls && (results, iter) == Iteration(extract, start, call)
    {
      var gir, next := NextOnDisk(gi, iter, extract);
      IterationNext(extract, start, call, results, iter, gir);
      results, iter := results + [gir], next;
      call := call + 1;
    }
  }

  lemma ResultsAreRecords(ix: Index, records: seq<CityRecord>, codes: seq<seq<Byte>>, rev1: bool, charset: Charset,
                          calls: nat, results: seq<Extraction>, iter: nat)
    requires HoldsRecords(ix, records, codes, rev1) && calls <= |records|
    requires (results, iter) == Iteration(DiskExtractor(ix, rev1, charset), ix.segments + 1, calls)
    ensures results == FirstRecords(records, codes, charset, calls)
    ensures forall k | 0 <= k < calls :: Yields(results[k], records[k], |codes[k]|, charset)
    ensures iter == IterAt(ix, codes, calls)
  {
    IterationYieldsRecords(ix, records, codes, rev1, charset, calls);
    forall k | 0 <= k < calls
      ensures Yields(results[k], records[k], |codes[k]|, charset)
    {
      PresentedShows(records[k], charset);
    }
  }

  /** Such a client reads back the first records of a file that holds them. */
  method ReadBack(gi: GeoIP, calls: nat, ghost records: seq<CityRecord>, ghost codes: seq<seq<Byte>>)
    returns (results: seq<Extraction>, iter: nat)
    requires gi.Walkable() && gi.cache.None?
    requires HoldsRecords(gi.Index(), records, codes, IsRev1(gi.databaseType)) && calls <= |records|
    ensures results == FirstRecords(records, codes, gi.charset, calls)
    ensures |results| == calls && forall k | 0 <= k < calls :: Yields(results[k], records[k], |codes[k]|, gi.charset)
    ensures iter == IterAt(gi.Index(), codes, calls)
  {
    ghost var ix, rev1, charset := gi.Index(), IsRev1(gi.databaseType), gi.charset;
    results, iter := ReadRecords(gi, calls, DiskExtractor(ix, rev1, charset));
    ResultsAreRecords(ix, records, codes, rev1, charset, calls, results, iter);
  }
}
