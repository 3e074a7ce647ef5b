/**
 Editions whose answers are the values themselves: country ids and region codes.
 */
module Editions {
  import opened Bits
  import opened Bytes
  import opened Trie
  import opened Structure
  import opened Handle
  import opened Names

  const NUM_COUNTRIES: int := 256
  const US_OFFSET: nat := 1
  const CANADA_OFFSET: nat := 677
  const WORLD_OFFSET: nat := 1353
  const FIPS_RANGE: nat := 360
  const LETTER_A: nat := 65

  // ---------------------------------------------------------------- countries

  /** The IPv4 editions that `GeoIP_id_by_ipnum_gl` accepts. */
  predicate HoldsCountries(t: int) {
    t == COUNTRY_EDITION || t == LARGE_COUNTRY_EDITION || t == PROXY_EDITION || t == NETSPEED_EDITION
  }

  /** `GeoIP_id_by_ipnum_gl`: the difference is unsigned and then stored in an `int`. */
  method IdByIpnum(gi: GeoIP, ipnum: nat, gl: GeoIPLookup) returns (id: int)
    requires gi.Walkable() && ipnum < TWO_TO_THE_32
    modifies gi`netmask, gl
    ensures id == if ipnum == 0 || gi.databaseType !in {1, 8, 10, 17} then 0
                  else CountryId(gi.Index(), ipnum)
  {
    if ipnum == 0 {
      return 0;
    }
    if !HoldsCountries(gi.databaseType) {
      return 0;
    }
    var seek := gi.SeekRecord(ipnum, gl);
    return ToInt32(seek - gi.databaseSegments.value);
  }

  function CountryId(ix: Index, ipnum: nat): int {
    ToInt32(Lookup(ix, IPV4_BITS, ipnum).Value() - ix.segments)
  }

  /** `GeoIP_code_by_id`, as an index into the code table; None is the null result. */
  function CodeById(id: int): Option<nat> {
    if id < 0 || id >= NUM_COUNTRIES then None else Some(id)
  }

  /** `GeoIP_country_code_by_ipnum_gl`. */
  method CountryCodeByIpnum(gi: GeoIP, ipnum: nat, gl: GeoIPLookup) returns (code: Option<nat>)
    requires gi.Walkable() && ipnum < TWO_TO_THE_32
    modifies gi`netmask, gl
    ensures code == if ipnum == 0 || gi.databaseType !in {1, 8, 10, 17} then None
                    else CountryCode(gi.Index(), ipnum)
  {
    var id := IdByIpnum(gi, ipnum, gl);
    return if id > 0 then CodeById(id) else None;
  }

  function CountryCode(ix: Index, ipnum: nat): Option<nat> {
    var id := CountryId(ix, ipnum);
    if id > 0 then CodeById(id) else None
  }

  /** With 3-byte records the id of a successful lookup is the distance of
      its value from the first one, and a failed lookup has a negative id. */
  lemma CountryIdSign(ix: Index, ipnum: nat)
    requires ix.Valid() && ix.recordLength == 3 && ix.segments >= 1
    ensures match Lookup(ix, IPV4_BITS, ipnum)
            case Found(v, _) => CountryId(ix, ipnum) == v - ix.segments && 0 <= v - ix.segments < Pow2(24) - ix.segments
            case Lost => CountryId(ix, ipnum) + ix.segments == 0 && CountryId(ix, ipnum) < 0
  {
    Pow2Values();
    if Lookup(ix, IPV4_BITS, ipnum).Found? {
      PrefixAgreement(ix, IPV4_BITS, ipnum);
      DescendValueBound(ix, IPV4_BITS, ipnum, IPV4_BITS, 0);
    }
  }

  /** A country code comes out exactly when the lookup finds one of the 255 values behind the first. */
  lemma CountryCodeIff(ix: Index, ipnum: nat, i: nat)
    requires ix.Valid() && ix.recordLength == 3 && ix.segments >= 1
    ensures CountryCode(ix, ipnum) == Some(i)
       <==> && 1 <= i <= 255
            && Lookup(ix, IPV4_BITS, ipnum).Found? && Lookup(ix, IPV4_BITS, ipnum).value == ix.segments + i
  {
    CountryIdSign(ix, ipnum);
  }

  /** In a standard country edition every successful lookup has an id in
      0..255, so the code is null exactly for a failure or for id 0. */
  lemma StandardCountryCode(ix: Index, ipnum: nat)
    requires ix.Valid() && ix.recordLength == 3 && ix.segments == COUNTRY_BEGIN
    ensures Lookup(ix, IPV4_BITS, ipnum).Found? ==> 0 <= CountryId(ix, ipnum) <= 255
    ensures CountryCode(ix, ipnum) == None <==> Lookup(ix, IPV4_BITS, ipnum).Lost? || CountryId(ix, ipnum) == 0
  {
    CountryIdSign(ix, ipnum);
    Pow2Values();
  }

  // ---------------------------------------------------------------- regions

  /** A region record: all NUL, a country (US or Canada) and two
      bytes of region, or the code of a country without region. */
  datatype Region = Blank | State(us: bool, first: nat, second: nat) | Country(index: nat)

  /** `a - b` on 32-bit unsigned operands. */
  function Minus32(a: nat, b: nat): nat
    requires b < TWO_TO_THE_32
  {
    if a >= b then a - b else a + TWO_TO_THE_32 - b
  }

  function CountryRegion(id: int): Region {
    match CodeById(id)
    case None => Blank
    case Some(i) => Country(i)
  }

  /** The region that a value of a Rev 0 (pre June 2003) edition stands for; the letters are stored in a `char`. */
  function RegionRev0(value: nat): Region {
    var d := Minus32(value, STATE_BEGIN_REV0);
    if d >= 1000 then State(true, ((d - 1000) / 26 + LETTER_A) % 256, (d - 1000) % 26 + LETTER_A)
    else CountryRegion(ToInt32(d))
  }

  /** The region that a value of a Rev 1 edition stands for. */
  function RegionRev1(value: nat): Region {
    var d := Minus32(value, STATE_BEGIN_REV1);
    if d < US_OFFSET then Blank
    else if d < CANADA_OFFSET then State(true, (d - US_OFFSET) / 26 + LETTER_A, (d - US_OFFSET) % 26 + LETTER_A)
    else if d < WORLD_OFFSET then State(false, (d - CANADA_OFFSET) / 26 + LETTER_A, (d - CANADA_OFFSET) % 26 + LETTER_A)
    else CountryRegion(ToInt32((d - WORLD_OFFSET) / FIPS_RANGE))
  }

  /** The region of an address; other editions have none. */
  function RegionFor(core: Core, ipnum: nat): Region {
    var value := Lookup(core.Index(), IPV4_BITS, ipnum).Value();
    if core.databaseType == REGION_EDITION_REV0 then RegionRev0(value)
    else if core.databaseType == REGION_EDITION_REV1 then RegionRev1(value)
    else Blank
  }

  /** `GeoIP_assign_region_by_inetaddr_gl`, for the address in host order. */
  method AssignRegion(gi: GeoIP, ipnum: nat, gl: GeoIPLookup) returns (region: Region)
    requires gi.Walkable() && ipnum < TWO_TO_THE_32
    modifies gi`netmask, gl
    ensures region == RegionFor(gi.CoreOf(), ipnum)
  {
    var seek := gi.SeekRecord(ipnum, gl);
    region := Blank;
    if gi.databaseType == REGION_EDITION_REV0 {
      seek := Minus32(seek, STATE_BEGIN_REV0);
      if seek >= 1000 {
        region := State(true, ((seek - 1000) / 26 + 65) % 256, (seek - 1000) % 26 + 65);
      } else {
        region := CountryRegion(ToInt32(seek));
      }
    } else if gi.databaseType == REGION_EDITION_REV1 {
      seek := Minus32(seek, STATE_BEGIN_REV1);
      if seek < US_OFFSET {
      } else if seek < CANADA_OFFSET {
        region := State(true, (seek - US_OFFSET) / 26 + 65, (seek - US_OFFSET) % 26 + 65);
      } else if seek < WORLD_OFFSET {
        region := State(false, (seek - CANADA_OFFSET) / 26 + 65, (seek - CANADA_OFFSET) % 26 + 65);
      } else {
        region := CountryRegion(ToInt32((seek - WORLD_OFFSET) / FIPS_RANGE));
      }
    }
  }

  predicate IsLetter(c: nat) { LETTER_A <= c < LETTER_A + 26 }

  /** The base-26 number of two capital letters. */
  function LetterPair(first: nat, second: nat): int {
    26 * (first as int - LETTER_A) + (second as int - LETTER_A)
  }

  /** Which Rev 1 values stand for a region: for two capital letters of the US or Canada exactly one value, for a
      country exactly the 360 values of its block, and for nothing the first value and all behind the last block. */
  predicate NamesRev1(value: nat, r: Region) {
    match r
    case State(us, first, second) =>
      && 65 <= first <= 90 && 65 <= second <= 90
      && value == (if us then 16000001 else 16000677) + 26 * (first - 65) + (second - 65)
    case Country(i) => i < 256 && 16001353 + 360 * i <= value < 16001353 + 360 * (i + 1)
    case Blank => value == 16000000 || value >= 16001353 + 360 * 256
  }

  lemma RegionRev1Iff(value: nat, r: Region)
    requires STATE_BEGIN_REV1 <= value < 0x100_0000
    ensures RegionRev1(value) == r <==> NamesRev1(value, r)
  {
    var d := value - STATE_BEGIN_REV1;
    match r
    case State(us, first, second) =>
      var from := if us then US_OFFSET else CANADA_OFFSET;
      if IsLetter(first) && IsLetter(second) && d == from + LetterPair(first, second) {
        DivModUnique(d - from, 26, first - LETTER_A, second - LETTER_A);
      }
    case _ =>
  }

  /** The region bytes of a Rev 0 edition repeat: 26 second letters for each of the 256 values of the first byte. */
  const REV0_PERIOD: int := 6656

  /** Which distances from the first value stand for a region of a Rev 0 edition:
      below 1000 a country number of the table or nothing, from there on always the
      US, with a second byte that is a letter and a first one that need not be. */
  predicate NamesRev0(d: int, r: Region) {
    match r
    case State(us, first, second) =>
      && us && d >= 1000 && first < 256 && 65 <= second <= 90
      && (d - 1000 - 26 * (first - 65) - (second - 65)) % 6656 == 0
    case Country(i) => d == i < 256
    case Blank => 256 <= d < 1000
  }

  lemma RegionRev0Iff(value: nat, r: Region)
    requires value < TWO_TO_THE_32
    ensures RegionRev0(value) == r <==> NamesRev0(Minus32(value, STATE_BEGIN_REV0), r)
  {
    var d := Minus32(value, STATE_BEGIN_REV0);
    if d < 1000 {
      assert ToInt32(d) == d;
    } else if r.State? {
      Rev0Letters(d - 1000, r.first, r.second);
    }
  }

  lemma Rev0Letters(e: nat, first: nat, second: nat)
    ensures (e / 26 + LETTER_A) % 256 == first && e % 26 + LETTER_A == second
       <==> first < 256 && IsLetter(second) && (e - LetterPair(first, second)) % REV0_PERIOD == 0
  {
    var q := e / 26;
    if first < 256 && IsLetter(second) {
      var rest := e - LetterPair(first, second);
      assert rest == 26 * (q - (first - LETTER_A)) + (e % 26 - (second - LETTER_A));
      PeriodSplits(q - (first - LETTER_A), e % 26 - (second - LETTER_A));
      CongruentBytes(q + LETTER_A, first);
    }
  }

  /** `26 * x + y` is a multiple of `26 * 256` exactly when `y` is 0 and `x` is a multiple of 256. */
  lemma PeriodSplits(x: int, y: int)
    requires -26 < y < 26
    ensures (26 * x + y) % REV0_PERIOD == 0 <==> y == 0 && x % 256 == 0
  {
    var n := 26 * x + y;
    if n % 6656 == 0 {
      var k := n / 6656;
      assert n == 6656 * k;
      assert y == 26 * (256 * k - x);
      ModOfMultiple(x, 256, k);
    } else if y == 0 && x % 256 == 0 {
      var j := x / 256;
      assert x == 256 * j;
      ModOfMultiple(n, 6656, j);
    }
  }

  lemma ModOfMultiple(n: int, p: int, k: int)
    requires p > 0 && n == p * k
    ensures n % p == 0
  {
    DivModUnique(n, p, k, 0);
  }

  lemma CongruentBytes(x: nat, b: nat)
    requires b < 256
    ensures x % 256 == b <==> (x - b) % 256 == 0
  {
  }

  // ---------------------------------------------------------------- regions of addresses

  lemma RegionValue(file: FileVersion, flags: Flags, ipnum: nat)
    requires OpenCore(file, flags).Some?
    requires OpenCore(file, flags).value.databaseType in {REGION_EDITION_REV0, REGION_EDITION_REV1}
    ensures var core := OpenCore(file, flags).value;
            && core.databaseSegments
            == (if core.databaseType == REGION_EDITION_REV0 then STATE_BEGIN_REV0 else STATE_BEGIN_REV1)
            && (Lookup(core.Index(), IPV4_BITS, ipnum).Found? ==>
                  core.databaseSegments <= Lookup(core.Index(), IPV4_BITS, ipnum).value < 0x100_0000)
  {
    var core := OpenCore(file, flags).value;
    Pow2Values();
    LayoutIsValid(file.content);
    if Lookup(core.Index(), IPV4_BITS, ipnum).Found? {
      PrefixAgreement(core.Index(), IPV4_BITS, ipnum);
      DescendValueBound(core.Index(), IPV4_BITS, ipnum, IPV4_BITS, 0);
    }
  }

  /** The region of every address in every file of the Rev 1 edition: two letters of the US or Canada from exactly one
      value, a country from exactly its block of 360 values, and nothing for all others and for every failed lookup. */
  lemma RegionOfAddressRev1(file: FileVersion, flags: Flags, ipnum: nat, r: Region)
    requires OpenCore(file, flags).Some? && OpenCore(file, flags).value.databaseType == 3
    ensures var core := OpenCore(file, flags).value;
            RegionFor(core, ipnum) == r <==>
            match Lookup(core.Index(), IPV4_BITS, ipnum)
            case Lost => r == Blank
            case Found(value, _) => NamesRev1(value, r)
  {
    RegionValue(file, flags, ipnum);
    var core := OpenCore(file, flags).value;
    if Lookup(core.Index(), IPV4_BITS, ipnum).Found? {
      RegionRev1Iff(Lookup(core.Index(), IPV4_BITS, ipnum).value, r);
    } else {
      FailedRegionRev1IsBlank(core.Index(), ipnum);
    }
  }

  /** The same for the Rev 0 edition, where a failed lookup is reported as the US with the region bytes 160 and S. */
  lemma RegionOfAddressRev0(file: FileVersion, flags: Flags, ipnum: nat, r: Region)
    requires OpenCore(file, flags).Some? && OpenCore(file, flags).value.databaseType == 7
    ensures var core := OpenCore(file, flags).value;
            RegionFor(core, ipnum) == r <==>
            match Lookup(core.Index(), IPV4_BITS, ipnum)
            case Lost => r == State(true, 160, 83)
            case Found(value, _) => NamesRev0(value - 16700000, r)
  {
    RegionValue(file, flags, ipnum);
    var core := OpenCore(file, flags).value;
    if Lookup(core.Index(), IPV4_BITS, ipnum).Found? {
      RegionRev0Iff(Lookup(core.Index(), IPV4_BITS, ipnum).value, r);
    } else {
      FailedRegionRev0IsUS(core.Index(), ipnum);
    }
  }

  /** A failed lookup leaves a Rev 1 region blank: its 0 wraps to a country number far above the table. */
  lemma FailedRegionRev1IsBlank(ix: Index, ipnum: nat)
    requires Lookup(ix, IPV4_BITS, ipnum).Lost?
    ensures RegionRev1(Lookup(ix, IPV4_BITS, ipnum).Value()) == Blank
  {
  }

  /** In a Rev 0 edition the same wrap-around makes a failed lookup report
      the US, with region bytes of which the first is no letter. */
  lemma FailedRegionRev0IsUS(ix: Index, ipnum: nat)
    requires Lookup(ix, IPV4_BITS, ipnum).Lost?
    ensures RegionRev0(Lookup(ix, IPV4_BITS, ipnum).Value()) == State(true, 160, 83)
    ensures !IsLetter(160) && IsLetter(83)
  {
  }

  /** So a failed lookup leaves the region blank in exactly the editions other than Rev 0. */
  lemma FailedRegionIsBlankIff(core: Core, ipnum: nat)
    requires Lookup(core.Index(), IPV4_BITS, ipnum).Lost?
    ensures RegionFor(core, ipnum) == Blank <==> core.databaseType != 7
  {
    FailedRegionRev0IsUS(core.Index(), ipnum);
    FailedRegionRev1IsBlank(core.Index(), ipnum);
  }

  /** A Rev 0 file without any node: it opens in every storage mode, and every address in it is reported as the US. */
  lemma EmptyRev0FileReportsUS(mtime: int, flags: Flags, ipnum: nat)
    ensures var core := OpenCore(FileVersion([255, 255, 255, 7], mtime), flags);
            && core.Some? && core.value.databaseType == REGION_EDITION_REV0
            && Lookup(core.value.Index(), IPV4_BITS, ipnum).Lost?
            && RegionFor(core.value, ipnum) == State(true, 160, 83)
  {
    MarkedLayout([], [7]);
    assert [] + [255, 255, 255] + [7] == [255, 255, 255, 7];
    var core := OpenCore(FileVersion([255, 255, 255, 7], mtime), flags).value;
    FailedRegionRev0IsUS(core.Index(), ipnum);
  }
}
