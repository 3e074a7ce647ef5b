# Verified model of the GeoIP Legacy C library

The library looks IP addresses up in a binary trie that is stored as a flat
byte file. This project models its lookups, the ranges that are grown from
them, the structure of a database file, the reload of a changed file, and the
text and record codecs, and proves properties of them in Dafny 4.11.
`dafny verify dfyconfig.toml` checks the whole project.

A database file is a `seq<Byte>`. The handle of the source is the class
`Handle.GeoIP` with the fields of `struct GeoIPTag`, its per-call result object
the class `Handle.GeoIPLookup`. Loops of the source are loops here, proved
against functions on the file; the theorems are lemmas about those functions.
C arithmetic is written out on naturals: `Bits.BitAnd` is `&`, `Bits.Shr` is
`>>`, and every 32- or 64-bit wrap-around appears as a remainder or as
`Names.ToInt32`.

| file | contents |
|---|---|
| `Bits.dfy`, `Bytes.dfy` | C arithmetic, byte orders, positioned reads |
| `Trie.dfy` | the trie that the bytes denote, prefix agreement, paths |
| `Structure.dfy` | structure marker, editions, index size, description text |
| `Handle.dfy` | opening, the three byte sources, both walks, the reload check |
| `Teredo.dfy` | the Teredo rewrite of IPv6 addresses |
| `Ranges.dfy` | range growth, and the report of `geoiplookup -i` |
| `Reload.dfy` | runs of ticks, replacements of the file and calls |
| `DottedQuad.dfy`, `Utf8.dfy` | text codecs |
| `Names.dfy`, `City.dfy`, `Editions.dfy` | name, City, country and region results |
| `Writer.dfy` | the inverse of the lookup: writing a tree of answers as a file |

The main results:

- The walk over the bytes is lookup in the tree that the bytes denote, for
  IPv4 and IPv6, and it succeeds exactly along the in-bounds paths of the node
  graph, which may be cyclic. All storage modes give the same answers, unless an
  empty index cache is read.
- A successful lookup speaks for its whole netblock; netblocks are equal or
  disjoint.
- A range query terminates and returns exactly the maximal interval of equal
  values around its address; ranges partition the address space.
- Writing any tree of answers as a file of any edition and opening it again, in
  any storage mode, gives back the tree, its country codes or regions, and the
  names and City records laid out in its content section.
- After every run of ticks, replacements and calls the handle is what a fresh
  open of one single file version would give.
- The codecs are round trips, each stated in both directions where both hold.
- What edition bytes, flags and record fields mean is stated by number and by
  position, independently of the functions that interpret them
  (`Structure.EditionLayout`, `Handle.OpenedSources`, `City.ExtractionIff`,
  `City.FieldsOfEncoding`, `Names.NameAtIff`, `DottedQuad.DottedIff`).

Where the source does not do what one would expect of it, the model keeps the
source's behaviour and a lemma says exactly when the expectation is met:

- A failed lookup gives a null name, and a null City record, only in a file
  without segments; otherwise text or a record is read from inside the index
  (`Names.NameIsNullIff`, `Names.FailedLookupStillReadsAName`,
  `City.RecordIsNullIff`, `City.FailedLookupStillReadsARecord`). The record then
  carries a netmask that this lookup did not assign (`City.GetRecord`).
- A failed lookup leaves the region blank in every edition but Rev 0, where it
  reports the US with a first region byte that is no letter
  (`Editions.FailedRegionIsBlankIff`, `Editions.EmptyRev0FileReportsUS`).
- Dotted-quad octets are compared after wrapping at 2^32
  (`DottedQuad.OverflowingOctetIsAccepted`, `DottedQuad.AcceptedOctetsAreExact`).
- A replaced file with the same modification time is never noticed
  (`Reload.SameMtimeIsNeverNoticed`, `Reload.NoticedIff`).
- With a segment count of zero the index cache of an edition with content is
  empty, and it is read all the same exactly when the file is long enough to hold
  a root pair (`Structure.EmptyIndexCache`, `Structure.EmptyIndexCacheIsRead`,
  `Handle.UnusableIndexCache`).
- A file whose segment count is all ones counts as corrupt
  (`Writer.AllOnesCountIsCorrupt`).

Conventions: `unsigned long` and `off_t` have 64 bits, `int` has 32, `char` is
signed, and the clock does not run backwards. A scan that leaves its buffer,
which C leaves undefined, is the outcome `Overrun` or `ScanOverrun`.

## Model

| member | source | states |
|---|---|---|
| `Handle.GeoIP.SeekRecord` | libGeoIP/GeoIP.c:1459-1543 | the IPv4 walk returns the value of the trie lookup, or 0, and records the prefix length in handle and result object exactly on success, whichever byte source is in use |
| `Handle.GeoIP.SeekRecordV6` | libGeoIP/GeoIP.c:1358-1449 | the same for IPv6: with teredo support on, an address under 2001:0::/32 is looked up as its low 32 bits inverted, and every other address, as without teredo support, as itself |
| `Handle.GeoIP.WalkV6` | libGeoIP/GeoIP.c:1377-1440 | the 128-step descent is the trie lookup of the big-endian number of the address |
| `Handle.GeoIP.ReadChild` | libGeoIP/GeoIP.c:1475-1529 | one step reads the right record of the right node with 32-bit offsets and ends the walk exactly when the node lies outside the file |
| `Handle.GeoIP.FetchPair` | libGeoIP/GeoIP.c:1480-1491 | disk, whole-file cache and index cache deliver the same pair |
| `Handle.LoadRecord` | libGeoIP/GeoIP.c:1493-1529 | unrolled and general decode both give the little-endian record of the chosen branch |
| `Handle.DecodeDownwards` | libGeoIP/GeoIP.c:1502-1509 | the shifting loop computes the little-endian number without losing a bit, for 1 to 4 bytes |
| `Handle.UnrolledIsLittleEndian` | libGeoIP/GeoIP.c:1495-1499 | the unrolled sum is the little-endian number of its three bytes |
| `Handle.CheckBitIsBit` | libGeoIP/GeoIP.c:1493 | the branch test reads the bit of the address at the current depth |
| `Handle.CheckBitV6IsBit` | libGeoIP/GeoIP.h:56-57 | the macro reads bit `bit` of the big-endian 128-bit number |
| `Handle.SourcesAgree` | libGeoIP/GeoIP.c:1480-1491 | for every file that opens and every address, walking the bytes of any storage mode gives the answer of the file exactly when no empty index cache is read |
| `Handle.UnusableIndexCache` | libGeoIP/GeoIP.c:1480-1491 | files without segments on which the index cache mode disagrees with the others |
| `Handle.GeoIP.ValidIsWalkable` | libGeoIP/GeoIP.c:1714-1728 | every opened handle has byte sources that hold all nodes a walk can reach, unless an empty index cache is read |
| `Trie.LookupIsSelect` | libGeoIP/GeoIP.c:1474-1536 | the walk is structural lookup in the tree that the bytes denote, the netmask being the depth of the leaf |
| `Trie.LookupFindsExactlyPaths` | libGeoIP/GeoIP.c:1474-1536 | success with value v and netmask m is equivalent to a path of m in-bounds nodes that ends in v |
| `Trie.LookupFailsExactlyWithoutPath` | libGeoIP/GeoIP.c:1536-1542 | failure is equivalent to the absence of such a path within 32 or 128 steps, on any node graph |
| `Trie.PrefixAgreement` | libGeoIP/GeoIP.c:1474-1536 | a lookup with netmask m has 1 <= m <= 32 (128), and every address with the same top m bits has the same answer |
| `Trie.NetblocksEqualOrDisjoint` | libGeoIP/GeoIP.c:1531-1534 | the netblocks of two successful lookups are equal, with equal answers, or disjoint |
| `Trie.NodeOffsetFits` | libGeoIP/GeoIP.c:1475-1479 | node offsets do not wrap at 32 bits, and the pairs lie among the first `segments` pairs |
| `Structure.ReadsStayInside` | libGeoIP/GeoIP.c:1052-1075 | for every file that opens, every pair a walk reads lies inside the file, and inside the index cache exactly when there is a segment |
| `Structure.EmptyIndexCache` | libGeoIP/GeoIP.c:1060-1074 | a walk reads a pair outside the index cache exactly when the edition has content, the segment count is 0 and the file holds a root pair |
| `Structure.EmptyIndexCacheIsRead` | libGeoIP/GeoIP.c:1060-1074 | files that open with an empty index cache, and which of them a walk reads behind it |
| `Structure.LayoutIsValid` | libGeoIP/GeoIP.c:1147-1200 | an accepted layout has 3- or 4-byte records and a segment bound below 2^24, and the editions with content are those that store their segment count |
| `Structure.EditionLayout` | libGeoIP/GeoIP.c:1104-1200 | for every edition byte by number: the record length, a fixed or stored first value, or a corrupt file |
| `Structure.EditionIndexSize` | libGeoIP/GeoIP.c:1052-1075 | the index size by edition number |
| `Structure.MarkerlessLayout` | libGeoIP/GeoIP.c:1083-1103 | a file without a marker among its last 20 windows is a standard country file if it has at least 23 bytes, and corrupt otherwise |
| `Structure.OneNodeFile` | libGeoIP/GeoIP.c:1493-1534 | in a file of one node of any IPv4 edition with content, the first record answers the lower half of the addresses, the second the upper half |
| `Structure.ScanBack` | libGeoIP/GeoIP.c:1090-1163 | the backward loop finds the last run of three equal bytes among its windows, and tells running out of windows from running off the file |
| `Structure.DatabaseInfo` | libGeoIP/GeoIP.c:2117-2166 | the description is the text between the last 00 00 00 and the marker, or the end of a file without one |
| `Structure.DescriptionRoundTrip` | libGeoIP/GeoIP.c:2117-2166 | a NUL-free description in front of the last marker comes back exactly if it has at most 99 bytes, and not at all otherwise |
| `Structure.MarkerlessDescription` | libGeoIP/GeoIP.c:2117-2166 | the same for a description at the end of a file without a marker |
| `Handle.GeoIP.SetupSegments` | libGeoIP/GeoIP.c:1077-1201 | edition, record length and segment count are those of the file's layout, and no segments are set exactly for a corrupt file |
| `Handle.DecodeThreeBytes` | libGeoIP/GeoIP.c:1158-1160 | the accumulation loop decodes the little-endian segment count |
| `Handle.GeoIP.GetIndexSize` | libGeoIP/GeoIP.c:1052-1075 | the whole file for editions without content, else the size of all pairs, or -1 when that exceeds the file |
| `Handle.GeoIP.Open` | libGeoIP/GeoIP.c:1621-1733 | null exactly for a missing or corrupt file; else caches, sizes and layout all come from that file |
| `Handle.OpensIff` | libGeoIP/GeoIP.c:1690-1728 | a file opens exactly when it has a layout and is as long as its pairs |
| `Handle.OpenedSources` | libGeoIP/GeoIP.c:1652-1728 | which flag makes the handle hold which bytes, and note the modification time |
| `Handle.GeoIP.CheckMtime` | libGeoIP/GeoIP.c:1203-1355 | the check leaves the handle alone, notes the second, or makes it what a fresh open of the new file gives, and never touches character set, Teredo support or netmask; a corrupt file leaves it invalid |
| `Handle.GeoIP.CheckedSeekRecord` | libGeoIP/GeoIP.c:1459-1543 | a whole lookup call keeps the handle in one version, and value and both netmasks are those of that version, for a call that itself reloads when it reads a cache and the record length is unchanged |
| `Reload.EveryRunHoldsOneVersion` | libGeoIP/GeoIP.c:1203-1355 | after every run, database, caches, size and layout of the handle all come from the version of the last reload, which was at the path |
| `Reload.EveryRunKeepsSettings` | libGeoIP/GeoIP.c:1203-1355 | every run from every state keeps flags, character set, Teredo support and netmask |
| `Reload.EveryRunReloadsWithCare` | libGeoIP/GeoIP.c:1220-1250 | installed versions were untouched for more than 60 seconds, stat runs at most once a second, and reloads never outnumber replacements |
| `Reload.EveryRunAnswersFromOneVersion` | libGeoIP/GeoIP.c:1203-1355 | after any run, walking the bytes that the storage mode reads, index cache, cache or file, gives the answers of that version exactly when no empty index cache is read |
| `Reload.RunKeepsInvariant` | libGeoIP/GeoIP.c:1203-1355 | the invariant behind the three run theorems holds after every sequence of events |
| `Reload.SameMtimeIsNeverNoticed` | libGeoIP/GeoIP.c:1249-1250 | a replacement with the old modification time is never installed, however long one waits |
| `Reload.OtherMtimeIsNoticed` | libGeoIP/GeoIP.c:1249-1345 | any other replacement is installed by the first late enough call |
| `Reload.NoticedIff` | libGeoIP/GeoIP.c:1214-1250 | some later call installs the file at the path exactly when cache checking is on and its modification time differs |
| `Ranges.RangeByIp` | libGeoIP/GeoIP.c:2553-2598 | the two texts, without leading zeros, are the ends of the maximal interval of equal values around the address, and handle and result object end with the netmask of the address itself |
| `Ranges.Grow` | libGeoIP/GeoIP.c:2569-2595 | the numeric part of the query computes that interval |
| `Ranges.GrowLeft` | libGeoIP/GeoIP.c:2576-2582 | the left loop terminates at the last address, going down, before which the value changes or 0 |
| `Ranges.GrowRight` | libGeoIP/GeoIP.c:2585-2592 | the right loop terminates at the first address, going up, after which the value changes or 0xffffffff |
| `Ranges.MaskGivesBlock` | libGeoIP/GeoIP.c:2572-2574 | the mask expressions give the first and last address of the netblock |
| `Ranges.SameValueIsFound` | libGeoIP/GeoIP.c:2576-2577 | a neighbour with the target value was looked up successfully, so its netmask is assigned |
| `Ranges.RangeOfMember` | libGeoIP/GeoIP.c:2553-2598 | every address in a range has that same range |
| `Ranges.RangesPartition` | libGeoIP/GeoIP.c:2553-2598 | two ranges are equal or disjoint, and touching ones differ in value |
| `Ranges.RangeIsUnionOfNetblocks` | libGeoIP/GeoIP.c:2576-2592 | a range contains the whole netblock of each of its addresses |
| `Ranges.SayRangeByIp` | apps/geoiplookup.c:204-236 | the printed range is the maximal one, and the network rebuilt from the last netmask contains the address and lies inside it, in numbers and in text |
| `DottedQuad.AddrToNum` | libGeoIP/GeoIP.c:1545-1577 | the parse is the value of four dot-separated digit groups, each at most 255 modulo 2^32, and 0 for every other text |
| `DottedQuad.ParserMeaning` | apps/geoiplookup.c:144-176 | the character loop with its wrapping accumulators computes the value that the parts of the text define |
| `DottedQuad.QuadValue` | libGeoIP/GeoIP.c:1545-1577 | every text of four digit groups with dots between them, each at most 255 modulo 2^32, has the number of its groups |
| `DottedQuad.AcceptedTexts` | libGeoIP/GeoIP.c:1545-1577 | no other text is accepted, so accepted texts consist of dots and digits |
| `DottedQuad.NumToAddrR` | apps/geoiplookup.c:178-202 | the text of the address and its NUL fit the 16-byte buffer |
| `DottedQuad.NumToAddr` | libGeoIP/GeoIP.c:2526-2551 | the result has four parts, the octets from the most significant on in decimal without leading zeros |
| `DottedQuad.DottedIff` | libGeoIP/GeoIP.c:2526-2551 | there is exactly one text with these parts, the printed one |
| `DottedQuad.GroupsOfJoined` | libGeoIP/GeoIP.c:1545-1577 | splitting at dots undoes joining |
| `DottedQuad.DottedQuadRoundTrip` | libGeoIP/GeoIP.c:2526-2551 | the text of every address parses back to it |
| `DottedQuad.PrintsLowBits` | libGeoIP/GeoIP.c:2526-2551 | the text of any number parses back to its low 32 bits |
| `DottedQuad.OverflowingOctetIsAccepted` | libGeoIP/GeoIP.c:1561-1568 | an octet written 4294967297 is accepted and read as 1 |
| `DottedQuad.AcceptedOctetsAreExact` | libGeoIP/GeoIP.c:1553-1573 | the octets of an accepted text are what they say exactly when each is written below 2^32 |
| `Utf8.Utf8Length` | libGeoIP/GeoIP.c:981-991 | the first pass counts exactly the bytes of the result and its NUL |
| `Utf8.Iso88591ToUtf8` | libGeoIP/GeoIP.c:980-1009 | the second pass fills the allocation exactly with the UTF-8 form and a NUL |
| `Utf8.Utf8RoundTrip` | libGeoIP/GeoIP.c:994-1007 | the result is valid UTF-8 after RFC 3629 and decodes to the input bytes as code points |
| `Utf8.EncodedHasNoNul` | libGeoIP/GeoIP.c:994-1007 | the conversion introduces no NUL |
| `Teredo.PrepareTeredo` | libGeoIP/GeoIP.c:784-805 | the in-place loops zero twelve bytes and invert four under 2001:0::/32, and leave every other address untouched |
| `Teredo.IsTeredoIff` | libGeoIP/GeoIP.c:784-797 | the four byte tests hold exactly for the addresses whose top 32 bits are 2001:0000 |
| `Teredo.SoughtNumber` | libGeoIP/GeoIP.c:784-805 | the number looked up, for every address, in terms of the number of the address |
| `Teredo.TeredoIsClient` | libGeoIP/GeoIP.c:784-805 | the rewritten number is the un-obfuscated IPv4 address of the client |
| `Teredo.TeredoDependsOnClientOnly` | libGeoIP/GeoIP.c:799-804 | two Teredo addresses are rewritten alike exactly when their clients are the same |
| `Teredo.RewriteIsIdempotent` | libGeoIP/GeoIP.c:784-805 | rewriting twice is rewriting once |
| `Teredo.TeredoLookup` | libGeoIP/GeoIP.c:1374-1376 | a Teredo address gets the answer of the plain address of its client |
| `Names.GetName` | libGeoIP/GeoIP.c:2407-2467 | the name at the record pointer of the lookup in the thirteen editions that hold names, and null for a wrong edition or the first value |
| `Names.ReadName` | libGeoIP/GeoIP.c:2441-2465 | disk read of 300 bytes or cache, converted or not |
| `Names.ScanString` | libGeoIP/GeoIPCity.c:110-112 | the scan finds the bytes up to the next NUL inside the buffer |
| `Names.CStringAtIff` | libGeoIP/GeoIPCity.c:110-117 | a string is found at an offset exactly when its bytes and a NUL stand there |
| `Names.RecordPointerIsPastIndex` | libGeoIP/GeoIP.c:2438-2439 | the pointer is the index size plus the distance of the value from the first one exactly when the sum stays below 2^31 |
| `Names.PointerBehindIndexIffFound` | libGeoIP/GeoIP.c:2433-2439 | the pointer lies behind the index exactly for a successful lookup |
| `Names.NameModesAgree` | libGeoIP/GeoIP.c:2441-2465 | disk mode yields a name exactly when a NUL comes within 300 bytes inside the file, and memory mode then yields the same name |
| `Names.NameAtIff` | libGeoIP/GeoIP.c:2441-2465 | which name is returned at a pointer, in both modes and character sets: exactly the string that stands there with its NUL, of at most 299 bytes on the disk |
| `Names.NameIsNullIff` | libGeoIP/GeoIP.c:2433-2465 | for every file, storage mode and address: the name is null exactly for the first value, for a failed lookup when there are no segments, and on the disk for a pointer whose 32-bit sum is negative |
| `Names.FailedLookupName` | libGeoIP/GeoIP.c:2433-2465 | a failed lookup reads a name inside the index whenever a NUL comes in time, and from the disk only then |
| `Names.FailedLookupStillReadsAName` | libGeoIP/GeoIP.c:2433-2439 | a file of 15 bytes that opens in every storage mode, in which every lookup fails and yet has an empty, non-null name |
| `City.ExtractRecord` | libGeoIP/GeoIPCity.c:56-182 | the record at the pointer of a value, whose encoding stands there, and how far the iterator moves |
| `City.ExtractionIff` | libGeoIP/GeoIPCity.c:78-182 | which record is returned at a pointer, field by field, in both modes: exactly the one whose encoding stands there, of at most 50 bytes on the disk |
| `City.FieldsOfEncoding` | libGeoIP/GeoIPCity.c:102-168 | where each field of an encoded record stands, and that only editions 2 and 30 carry a third number, for country 225 |
| `City.ScanStrings` | libGeoIP/GeoIPCity.c:102-143 | the three scan loops delimit region, city and postal code |
| `City.ReadNumbers` | libGeoIP/GeoIPCity.c:145-173 | coordinates, and the metro and area code for US records of Rev 1 editions only |
| `City.ParseCityIff` | libGeoIP/GeoIPCity.c:102-173 | parsing yields a record and a length exactly for buffers that begin with the encoding of that record |
| `City.RecordModesAgree` | libGeoIP/GeoIPCity.c:78-100 | disk mode extracts exactly the records of at most 50 encoded bytes that stand at the pointer, and memory mode then extracts the same |
| `City.GetRecord` | libGeoIP/GeoIPCity.c:184-202 | the record of an address in editions 2 and 6, showing what stands at its pointer, with the netmask of its lookup, or after a failed lookup the netmask that the result object held before |
| `City.RecordIsNullIff` | libGeoIP/GeoIPCity.c:68-100 | for every file, storage mode and address: the record is null exactly for the first value, a value that points behind the file, and a failed lookup when there are no segments |
| `City.FailedLookupStillReadsARecord` | libGeoIP/GeoIPCity.c:184-202 | a file of 24 bytes that opens in every storage mode, in which every lookup fails and yet returns a record |
| `City.InitRecordIter` | libGeoIP/GeoIPCity.c:311 | the record pointer of the first iterator is byte 1 of the content section |
| `City.NextRecord` | libGeoIP/GeoIPCity.c:313-320 | refusal in memory mode; else one extraction, and a move by the encoded length on success only |
| `City.IterationStep` | libGeoIP/GeoIPCity.c:176-179 | at the iterator of record k both modes extract record k, and the iterator moves to record k + 1 |
| `City.IterationYieldsRecords` | libGeoIP/GeoIPCity.c:311-320 | k calls return the first k records laid out end to end and leave the iterator behind them |
| `City.ReadRecords` | libGeoIP/GeoIPCity.c:311-320 | a loop of k calls from the first iterator on, in disk mode, computes that iteration |
| `City.ReadBack` | libGeoIP/GeoIPCity.c:311-320 | on a handle whose file holds records end to end, that loop returns the first k of them, field by field, and the iterator behind them |
| `Editions.IdByIpnum` | libGeoIP/GeoIP.c:2083-2099 | the id is the 32-bit difference to the first value in editions 1, 8, 10 and 17, and 0 elsewhere and for address 0 |
| `Editions.CountryIdSign` | libGeoIP/GeoIP.c:2097 | ids of successful lookups are distances, ids of failed ones negative |
| `Editions.CountryCodeByIpnum` | libGeoIP/GeoIP.c:1981-1987 | a code only for positive ids inside the table |
| `Editions.CountryCodeIff` | libGeoIP/GeoIP.c:1981-1987 | code i comes out exactly when the lookup finds the i-th value behind the first, for i in 1..255 |
| `Editions.StandardCountryCode` | libGeoIP/GeoIP.c:2083-2099 | in a standard country edition ids are 0..255 and the code is null exactly for failure or id 0 |
| `Editions.AssignRegion` | libGeoIP/GeoIP.c:2171-2225 | the region of an address in both region editions |
| `Editions.RegionRev1Iff` | libGeoIP/GeoIP.c:2197-2224 | which values name which state, country or nothing: two capital letters from exactly one value, a country from exactly its block of 360 |
| `Editions.RegionOfAddressRev1` | libGeoIP/GeoIP.c:2197-2224 | for every Rev 1 file and address: which region the lookup gives, found or failed |
| `Editions.RegionRev0Iff` | libGeoIP/GeoIP.c:2181-2196 | which values of a Rev 0 edition give the US with which bytes, a country, or nothing |
| `Editions.RegionOfAddressRev0` | libGeoIP/GeoIP.c:2181-2196 | for every Rev 0 file and address: which region the lookup gives, found or failed |
| `Editions.FailedRegionRev1IsBlank` | libGeoIP/GeoIP.c:2199-2222 | a failed lookup leaves a Rev 1 region blank |
| `Editions.FailedRegionRev0IsUS` | libGeoIP/GeoIP.c:2183-2190 | a failed lookup in a Rev 0 edition reports the US with region bytes 160 and S, of which the first is no letter |
| `Editions.FailedRegionIsBlankIff` | libGeoIP/GeoIP.c:2171-2224 | a failed lookup leaves the region blank exactly in the editions other than Rev 0 |
| `Editions.EmptyRev0FileReportsUS` | libGeoIP/GeoIP.c:2183-2190 | a file of four bytes that opens in every storage mode and reports every address as the US |
| `Writer.WrittenFileLayout` | libGeoIP/GeoIP.c:1090-1174 | edition, record length, first value and index size of a written file of any edition are recovered |
| `Writer.WrittenFileLookup` | libGeoIP/GeoIP.c:1474-1536 | looking up in a written file is looking up in the tree that was written |
| `Writer.WrittenFileOpens` | libGeoIP/GeoIP.c:1621-1733 | a written file opens in every storage mode, and walking the bytes that this mode reads looks up in the tree that was written |
| `Writer.WrittenName` | libGeoIP/GeoIP.c:2433-2465 | a name laid out in the content section is returned for its leaf, in the character set of the handle, by a handle opened in any storage mode |
| `Writer.WrittenCityRecord` | libGeoIP/GeoIPCity.c:56-182 | a City record laid out in the content section is returned for its leaf, field by field, by a handle opened in any storage mode |
| `Writer.WrittenCountryCode` | libGeoIP/GeoIP.c:2083-2099 | in a written country file the code of an address is the distance of its leaf from the first value |
| `Writer.WrittenRegion` | libGeoIP/GeoIP.c:2197-2224 | in a written Rev 1 region file the region of an address is the one that its leaf stands for |
| `Writer.AllOnesCountIsCorrupt` | libGeoIP/GeoIP.c:1090-1103 | the one segment count that cannot be written makes the file corrupt |

## Left out

- Handle.GeoIP.SeekRecord: addresses of 2^32 and more, which `unsigned long` admits, are not modelled; an empty index cache of a file that holds a root pair is excluded, because the source then reads outside its allocation.
- Handle.GeoIP.CheckedSeekRecord: the answer of a call that itself reloads is unspecified when it reads from the disk, because the source takes the file descriptor before the reload, and when the record length changes, because it takes the pair length before.
- Ranges.RangeByIp: no reload during the call, and the address itself must be found, because the source otherwise shifts by a netmask that nothing has assigned.
- Ranges.Grow: the same two conditions.
- Ranges.SayRangeByIp: the same two conditions; the lines are a report value, without the printing.
- Editions.AssignRegion: the country code is an index into the code table, whose texts are not part of the model; the address is taken in host order.
- City.GetRecord: country texts are represented by the country number, coordinates by their 24-bit integers, without the conversion to degrees.
- Names.GetName: the IPv6 variant, whose buffer ends in an extra NUL, is not modelled.
- Handle.GeoIP.CheckMtime: allocation failures and failing system calls other than `stat`; a corrupt file ends the run with an invalid handle.
- Handle.GeoIP.Open: allocation failure, the path of the file and its edition-specific defaults.
- The order of bytes in a `mmap` that changes under the handle: a version of the file never changes, it is only replaced.
- Setting teredo support and the character set, which only assign a field.
- IPv6 country and region lookups, which repeat the IPv4 code on the other walk.
- Host name resolution, `inet_pton` and `inet_ntop`.
- The region name, time zone and country tables, which are data.
- Deprecated wrappers, printing of messages, argument parsing and the Windows branches.
