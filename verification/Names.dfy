/**
 Text records behind the index: organisation, ISP and other name editions.
 */
module Names {
  import opened Bits
  import opened Bytes
  import opened Trie
  import opened Structure
  import opened Handle
  import opened Utf8

  const MAX_ORG_RECORD_LENGTH: nat := 300

  // ---------------------------------------------------------------- C strings in a buffer

  /** The C string that starts at `at`; None when no NUL follows inside
      the buffer, so that the C code would read past its end. */
  function CStringAt(buf: seq<Byte>, at: nat): (s: Option<CString>)
    decreases |buf| - at
  {
    if at >= |buf| then None
    else if buf[at] == 0 then Some([])
    else
      match CStringAt(buf, at + 1)
      case None => None
      case Some(rest) => Some([buf[at]] + rest)
  }

  /** A C string is found exactly when its bytes and a NUL stand at `at`. */
  lemma {:induction false} CStringAtIff(buf: seq<Byte>, at: nat, s: CString)
    ensures CStringAt(buf, at) == Some(s)
       <==> at + |s| < |buf| && buf[at..at + |s|] == s && buf[at + |s|] == 0
    decreases |s|
  {
    if at < |buf| && s != [] {
      CStringAtIff(buf, at + 1, s[1..]);
      assert [s[0]] + s[1..] == s;
      if buf[at] == s[0] && at + |s| < |buf| {
        assert buf[at..at + |s|] == [buf[at]] + buf[at + 1..at + |s|];
      }
      assert s[0] in s;
    }
  }

  /** `strlen`, and the scanning loops of the City record: None is a scan that leaves the buffer. */
  method ScanString(buf: seq<Byte>, at: nat) returns (s: Option<CString>)
    ensures s == CStringAt(buf, at)
  {
    if at >= |buf| {
      return None;
    }
    var length := 0;
    while at + length < |buf|
      invariant at + length <= |buf| && 0 !in buf[at..at + length]
    {
      if buf[at + length] == 0 {
        CStringAtIff(buf, at, buf[at..at + length]);
        return Some(buf[at..at + length]);
      }
      assert buf[at..at + length + 1] == buf[at..at + length] + [buf[at + length]];
      length := length + 1;
    }
    CStringAtExists(buf, at);
    assert buf[at..at + length] == buf[at..];
    return None;
  }

  /** It is found at all exactly when a NUL follows. */
  lemma {:induction false} CStringAtExists(buf: seq<Byte>, at: nat)
    ensures CStringAt(buf, at).Some? <==> at < |buf| && 0 in buf[at..]
    decreases |buf| - at
  {
    if at < |buf| {
      assert buf[at..] == [buf[at]] + buf[at + 1..];
      CStringAtExists(buf, at + 1);
    }
  }

  // ---------------------------------------------------------------- pointers

  /** The value of an `int` that a 32-bit computation of `x` is stored in. */
  function ToInt32(x: int): int
    decreases if x < 0 then -2 * x else 2 * x + 1
  {
    if x < -0x8000_0000 then ToInt32(x + TWO_TO_THE_32)
    else if x < 0x8000_0000 then x
    else ToInt32(x - TWO_TO_THE_32)
  }

  lemma {:induction false} ToInt32IsCongruent(x: int)
    ensures -0x8000_0000 <= ToInt32(x) < 0x8000_0000
    ensures ToInt32(x) % TWO_TO_THE_32 == x % TWO_TO_THE_32
    decreases if x < 0 then -2 * x else 2 * x + 1
  {
    if x < -0x8000_0000 {
      ToInt32IsCongruent(x + TWO_TO_THE_32);
      assert (x + TWO_TO_THE_32) % TWO_TO_THE_32 == x % TWO_TO_THE_32;
    } else if x >= 0x8000_0000 {
      ToInt32IsCongruent(x - TWO_TO_THE_32);
      assert (x - TWO_TO_THE_32) % TWO_TO_THE_32 == x % TWO_TO_THE_32;
    }
  }

  /** `seek + (2 * record_length - 1) * segments`, computed in 32 bits and stored in an `int`. */
  function RecordPointer(ix: Index, seek: nat): int {
    ToInt32(seek + ix.At(ix.segments) - ix.segments)
  }

  lemma PointerSum(ix: Index, seek: nat)
    requires ix.recordLength >= 1
    ensures ToInt32(seek + (2 * ix.recordLength - 1) * ix.segments) == RecordPointer(ix, seek)
  {
    assert (2 * ix.recordLength - 1) * ix.segments == 2 * ix.recordLength * ix.segments - ix.segments;
  }

  /** Without overflow a record pointer is the index size plus the distance of the value from the first one. */
  lemma RecordPointerIsPastIndex(ix: Index, seek: nat)
    requires ix.Valid() && seek < TWO_TO_THE_32
    ensures RecordPointer(ix, seek) == ix.At(ix.segments) + (seek - ix.segments)
       <==> seek + ix.At(ix.segments) - ix.segments < 0x8000_0000
    ensures seek < Pow2(24) ==> seek + ix.At(ix.segments) - ix.segments < 0x8000_0000
  {
    Pow2Values();
    var sum := seek + ix.At(ix.segments) - ix.segments;
    assert ix.recordLength == 3 || ix.recordLength == 4;
    ToInt32IsCongruent(sum);
  }

  /** The record of a successful lookup starts behind the index; the pointer made from a failed one lies inside it. */
  lemma PointerBehindIndexIffFound(ix: Index, w: nat, num: nat)
    requires ix.Valid() && ix.segments >= 1
    requires Lookup(ix, w, num).Value() + ix.At(ix.segments) - ix.segments < 0x8000_0000
    ensures RecordPointer(ix, Lookup(ix, w, num).Value()) >= ix.At(ix.segments) <==> Lookup(ix, w, num).Found?
  {
    Pow2Values();
    RecordPointerIsPastIndex(ix, Lookup(ix, w, num).Value());
    if Lookup(ix, w, num).Found? {
      PrefixAgreement(ix, w, num);
    }
  }

  // ---------------------------------------------------------------- names

  /** The IPv4 editions that `_get_name_gl` accepts. */
  predicate HoldsNames(t: int) {
    || t == ORG_EDITION || t == ISP_EDITION || t == DOMAIN_EDITION || t == ASNUM_EDITION
    || t == ACCURACYRADIUS_EDITION || t == NETSPEED_EDITION_REV1 || t == USERTYPE_EDITION
    || t == REGISTRAR_EDITION || t == LOCATIONA_EDITION
    || t == CITYCONF_EDITION || t == COUNTRYCONF_EDITION || t == REGIONCONF_EDITION || t == POSTALCONF_EDITION
  }

  /** A null result, a text, or a scan past the end of the buffer, which C leaves undefined. */
  datatype NameResult = NoName | Name(text: seq<Byte>) | Overrun

  function Converted(s: CString, charset: Charset): seq<Byte> {
    if charset == Charset.Utf8 then Encoded(s) else s
  }

  /** `text` is the string `s` in a character set: its very bytes, or UTF-8 whose code points they are. */
  ghost predicate Renders(text: seq<Byte>, s: CString, charset: Charset) {
    if charset == Iso88591 then text == s
    else
      && Decode(text).Some?
      && |Decode(text).value| == |s|
      && forall i | 0 <= i < |s| :: Decode(text).value[i] == s[i]
  }

  lemma ConvertedRenders(s: CString, charset: Charset)
    ensures Renders(Converted(s, charset), s, charset)
  {
    Utf8RoundTrip(s);
  }

  lemma RendersUnique(text: seq<Byte>, s: CString, t: CString, charset: Charset)
    requires Renders(text, s, charset) && Renders(text, t, charset)
    ensures s == t
  {
  }

  function TerminatedName(buf: seq<Byte>, at: nat, charset: Charset): NameResult {
    match CStringAt(buf, at)
    case None => Overrun
    case Some(s) => Name(Converted(s, charset))
  }

  /** The name at a record pointer, from a 300-byte read or from the whole-file cache. */
  function NameAt(cache: Option<seq<Byte>>, database: seq<Byte>, charset: Charset, pointer: int): NameResult {
    match cache
    case None =>
      (match Pread(database, MAX_ORG_RECORD_LENGTH, pointer)
       case None => NoName
       case Some(buf) => TerminatedName(buf, 0, charset))
    case Some(bytes) =>
      if pointer < 0 then Overrun else TerminatedName(bytes, pointer, charset)
  }

  /** The name of an address, for a handle of an edition that holds names. */
  function NameFor(core: Core, charset: Charset, w: nat, num: nat): NameResult {
    var seek := Lookup(core.Index(), w, num).Value();
    if seek == core.databaseSegments then NoName
    else NameAt(core.cache, core.database, charset, RecordPointer(core.Index(), seek))
  }

  /** `_get_name_gl` behind its reload check. */
  method GetName(gi: GeoIP, ipnum: nat, gl: GeoIPLookup) returns (name: NameResult)
    requires gi.Walkable() && ipnum < TWO_TO_THE_32
    modifies gi`netmask, gl
    ensures name == if gi.databaseType in {4, 5, 9, 11, 13, 14, 26, 28, 32, 34, 35, 36, 37}
                    then NameFor(gi.CoreOf(), gi.charset, 32, ipnum)
                    else NoName
  {
    if !HoldsNames(gi.databaseType) {
      return NoName;
    }
    var seek := gi.SeekRecord(ipnum, gl);
    if seek == gi.databaseSegments.value {
      return NoName;
    }
    var recordPointer := ToInt32(seek + (2 * gi.recordLength - 1) * gi.databaseSegments.value);
    PointerSum(gi.Index(), seek);
    name := ReadName(gi.cache, gi.database, gi.charset, recordPointer);
  }

  method ReadName(cache: Option<seq<Byte>>, database: seq<Byte>, charset: Charset, pointer: int)
    returns (name: NameResult)
    ensures name == NameAt(cache, database, charset, pointer)
  {
    var s: Option<CString>;
    if cache == None {
      var buf := Pread(database, MAX_ORG_RECORD_LENGTH, pointer);
      if buf == None {
        return NoName;
      }
      s := ScanString(buf.value, 0);
    } else {
      if pointer < 0 {
        return Overrun;
      }
      s := ScanString(cache.value, pointer);
    }
    if s == None {
      return Overrun;
    }
    if charset == Charset.Utf8 {
      var p := Iso88591ToUtf8(s.value);
      return Name(p[..p.Length - 1]);
    }
    return Name(s.value);
  }

  /** A NUL within 300 bytes of the pointer, and inside the file. */
  predicate EndsInTime(file: seq<Byte>, pointer: int) {
    0 <= pointer < |file|
    && 0 in file[pointer..if pointer + MAX_ORG_RECORD_LENGTH <= |file| then pointer + MAX_ORG_RECORD_LENGTH else |file|]
  }

  /** Disk mode yields a name exactly when a NUL comes within 300 bytes
      of the pointer, and memory mode then yields the same name. */
  lemma NameModesAgree(file: seq<Byte>, charset: Charset, pointer: int)
    ensures NameAt(None, file, charset, pointer).Name? <==> EndsInTime(file, pointer)
    ensures NameAt(None, file, charset, pointer).Name? ==>
              NameAt(Some(file), file, charset, pointer) == NameAt(None, file, charset, pointer)
  {
    if 0 <= pointer < |file| {
      var end := if pointer + MAX_ORG_RECORD_LENGTH <= |file| then pointer + MAX_ORG_RECORD_LENGTH else |file|;
      var buf := file[pointer..end];
      CStringAtExists(buf, 0);
      assert buf[0..] == buf;
      if CStringAt(buf, 0).Some? {
        var s := CStringAt(buf, 0).value;
        CStringAtIff(buf, 0, s);
        assert file[pointer + |s|] == buf[|s|] == 0;
        assert file[pointer..pointer + |s|] == buf[..|s|];
        CStringAtIff(file, pointer, s);
      }
    }
  }

  /** A name that stands at a pointer with its NUL is found in both modes. */
  lemma NameStands(file: seq<Byte>, pointer: nat, name: CString, charset: Charset)
    requires StandsAt(file, pointer, name + [0]) && |name| < MAX_ORG_RECORD_LENGTH
    ensures NameAt(None, file, charset, pointer) == Name(Converted(name, charset))
    ensures NameAt(Some(file), file, charset, pointer) == Name(Converted(name, charset))
  {
    StandsConcat(file, pointer, name, [0]);
    StandsIsSlice(file, pointer, name);
    assert [0][0] == file[pointer + |name| + 0];
    CStringAtIff(file, pointer, name);
    var end := if pointer + MAX_ORG_RECORD_LENGTH <= |file| then pointer + MAX_ORG_RECORD_LENGTH else |file|;
    var buf := file[pointer..end];
    SliceOfSlice(file, pointer, end - pointer, 0, |name|);
    assert buf[|name|] == file[pointer + |name|];
    CStringAtIff(buf, 0, name);
  }

  /** Which name is read at a pointer, in both modes: the string whose bytes and NUL stand there, on the disk if it has
      at most 299 bytes, in the character set of the handle. */
  lemma NameAtIff(cache: Option<seq<Byte>>, file: seq<Byte>, charset: Charset, pointer: int, s: CString)
    requires cache.Some? ==> cache.value == file
    ensures && NameAt(cache, file, charset, pointer).Name?
            && Renders(NameAt(cache, file, charset, pointer).text, s, charset)
       <==> pointer >= 0 && StandsAt(file, pointer, s + [0]) && (cache.None? ==> |s| <= 299)
  {
    if pointer >= 0 {
      if cache.None? {
        var end := if pointer + 300 <= |file| then pointer + 300 else |file|;
        var buf := if pointer >= |file| then [] else file[pointer..end];
        TerminatedNameIff(buf, 0, charset, s);
        StringStands(buf, 0, s);
        if pointer < |file| {
          StandsInWindow(file, pointer, end, s + [0]);
        }
      } else {
        TerminatedNameIff(file, pointer, charset, s);
        StringStands(file, pointer, s);
      }
    }
  }

  lemma StandsInWindow(file: seq<Byte>, from: nat, end: nat, part: seq<Byte>)
    requires from <= end <= |file|
    ensures StandsAt(file[from..end], 0, part) <==> StandsAt(file, from, part) && from + |part| <= end
  {
    var window := file[from..end];
    if from + |part| <= end {
      assert forall i | 0 <= i < |part| :: part[i] == window[i] <==> part[i] == file[from + i];
    }
  }

  lemma TerminatedNameIff(buf: seq<Byte>, at: nat, charset: Charset, s: CString)
    ensures TerminatedName(buf, at, charset).Name? && Renders(TerminatedName(buf, at, charset).text, s, charset)
       <==> CStringAt(buf, at) == Some(s)
  {
    if CStringAt(buf, at).Some? {
      var t: CString := CStringAt(buf, at).value;
      ConvertedRenders(t, charset);
      if Renders(Converted(t, charset), s, charset) {
        RendersUnique(Converted(t, charset), s, t, charset);
      }
    }
  }

  lemma StringStands(file: seq<Byte>, at: nat, s: CString)
    ensures StandsAt(file, at, s + [0]) <==> CStringAt(file, at) == Some(s)
  {
    CStringAtIff(file, at, s);
    StandsConcat(file, at, s, [0]);
    StandsIsSlice(file, at, s);
    StandsIsSlice(file, at + |s|, [0]);
    if at + |s| < |file| {
      assert file[at + |s|..at + |s| + 1] == [file[at + |s|]];
    }
  }

  // ---------------------------------------------------------------- null names

  lemma NameAtIsNullIff(cache: Option<seq<Byte>>, database: seq<Byte>, charset: Charset, pointer: int)
    ensures NameAt(cache, database, charset, pointer) == NoName <==> cache.None? && pointer < 0
  {
  }

  /** A pointer is negative exactly when its sum reaches the sign bit. */
  lemma PointerSign(ix: Index, seek: nat)
    requires ix.Valid() && seek < TWO_TO_THE_32
    ensures RecordPointer(ix, seek) < 0 <==> 0x8000_0000 <= seek + ix.At(ix.segments) - ix.segments < TWO_TO_THE_32
  {
    Pow2Values();
    assert ix.recordLength == 3 || ix.recordLength == 4;
    assert 0 <= ix.At(ix.segments) - ix.segments < 0x8000_0000;
    SignOfPointer(seek + ix.At(ix.segments) - ix.segments);
  }

  lemma SignOfPointer(sum: int)
    requires 0 <= sum < TWO_TO_THE_32 + 0x8000_0000
    ensures ToInt32(sum) < 0 <==> 0x8000_0000 <= sum < TWO_TO_THE_32
  {
    if 0x8000_0000 <= sum {
      assert ToInt32(sum) == ToInt32(sum - TWO_TO_THE_32);
    }
  }

  /** The pointer made from a failed lookup lies inside the index. */
  lemma PointerOfZero(ix: Index)
    requires ix.Valid() && ix.segments >= 1
    ensures 0 < RecordPointer(ix, 0) < ix.At(ix.segments)
  {
    Pow2Values();
    RecordPointerIsPastIndex(ix, 0);
  }

  lemma ValueFits(ix: Index, w: nat, num: nat)
    requires ix.Valid()
    ensures Lookup(ix, w, num).Value() < TWO_TO_THE_32
  {
    if Lookup(ix, w, num).Found? {
      DescendValueBound(ix, w, num, w, 0);
      Pow2Monotonic(8 * ix.recordLength, 32);
    }
    Pow2Values();
  }

  lemma OpenedIndex(file: FileVersion, flags: Flags)
    requires OpenCore(file, flags).Some?
    ensures var core := OpenCore(file, flags).value;
            && core.Index().Valid()
            && core.databaseType == LayoutOf(file.content).value.databaseType
            && (HasContent(core.databaseType) ==> core.Index().At(core.databaseSegments) <= |file.content|)
  {
    LayoutIsValid(file.content);
    if HasContent(LayoutOf(file.content).value.databaseType) {
      IndexFits(file.content, LayoutOf(file.content).value);
    }
  }

  /** When a name is null: for the first value, for a failed lookup in a file without
      segments, and on the disk for a pointer that overflows to a negative number.  A
      failed lookup in any other file has a name, read from inside its index. */
  lemma NameIsNullIff(file: FileVersion, flags: Flags, charset: Charset, w: nat, num: nat)
    requires OpenCore(file, flags).Some?
    ensures var core := OpenCore(file, flags).value;
            var ix := core.Index();
            NameFor(core, charset, w, num) == NoName <==>
              match Lookup(ix, w, num)
              case Lost => ix.segments == 0
              case Found(v, _) =>
                || v == ix.segments
                || (core.cache.None? && 0x8000_0000 <= v + ix.At(ix.segments) - ix.segments < TWO_TO_THE_32)
  {
    var core := OpenCore(file, flags).value;
    var ix := core.Index();
    OpenedIndex(file, flags);
    var seek := Lookup(ix, w, num).Value();
    ValueFits(ix, w, num);
    PointerSign(ix, seek);
    NameAtIsNullIff(core.cache, core.database, charset, RecordPointer(ix, seek));
    if Lookup(ix, w, num).Lost? && ix.segments >= 1 {
      PointerOfZero(ix);
    }
  }

  /** What a failed lookup yields instead: the text inside the index
      that the pointer of value 0 leads to, if a NUL ends it in time. */
  lemma FailedLookupName(file: FileVersion, flags: Flags, charset: Charset, w: nat, num: nat)
    requires OpenCore(file, flags).Some? && HasContent(OpenCore(file, flags).value.databaseType)
    requires Lookup(OpenCore(file, flags).value.Index(), w, num).Lost?
    requires OpenCore(file, flags).value.databaseSegments >= 1
    ensures var core := OpenCore(file, flags).value;
            var pointer := RecordPointer(core.Index(), 0);
            && 0 < pointer < core.Index().At(core.databaseSegments) <= |file.content|
            && (EndsInTime(file.content, pointer) ==> NameFor(core, charset, w, num).Name?)
            && (core.cache.None? && NameFor(core, charset, w, num).Name? ==> EndsInTime(file.content, pointer))
  {
    var core := OpenCore(file, flags).value;
    OpenedIndex(file, flags);
    PointerOfZero(core.Index());
    NameModesAgree(file.content, charset, RecordPointer(core.Index(), 0));
    assert core.database == file.content && (core.cache.Some? ==> core.cache == Some(file.content));
  }

  /** One node that is its own child on both sides, and the marker of the organisation edition with one segment. */
  const LOOPING_ORG_FILE: seq<Byte> := [0, 0, 0, 0, 0, 0, 0, 0] + [255, 255, 255] + [5, 1, 0, 0]

  lemma LoopingOrgFileLayout()
    ensures LayoutOf(LOOPING_ORG_FILE) == Some(Layout(ORG_EDITION, 4, 1))
    ensures IndexSize(LOOPING_ORG_FILE, Layout(ORG_EDITION, 4, 1)) == Some(8)
  {
    var trailer: seq<Byte> := [5, 1, 0, 0];
    MarkedLayout([0, 0, 0, 0, 0, 0, 0, 0], trailer);
    assert trailer[1..4] == [1, 0, 0];
    assert LittleEndian([0, 0]) == 0;
    assert [1, 0, 0][1..] == [0, 0];
    assert LittleEndian([1, 0, 0]) == 1;
  }

  lemma LoopingOrgFileIsLost(w: nat, num: nat)
    ensures Lookup(Index(LOOPING_ORG_FILE, 4, 1), w, num).Lost?
  {
    var ix := Index(LOOPING_ORG_FILE, 4, 1);
    assert ix.bytes[0..4] == [0, 0, 0, 0] && ix.bytes[4..8] == [0, 0, 0, 0];
    ZerosAreZero([0, 0, 0, 0]);
    SelfLoopIsLost(ix, w, num, w);
  }

  /** A failed lookup does not give a null name: this file opens in every storage mode, every lookup
      in it fails, and the name returned is the empty text that the last byte of the index ends. */
  lemma FailedLookupStillReadsAName(mtime: int, flags: Flags, charset: Charset, w: nat, num: nat)
    ensures var core := OpenCore(FileVersion(LOOPING_ORG_FILE, mtime), flags);
            && core.Some? && HoldsNames(core.value.databaseType)
            && Lookup(core.value.Index(), w, num).Lost?
            && NameFor(core.value, charset, w, num) == Name([])
  {
    LoopingOrgFileLayout();
    var core := OpenCore(FileVersion(LOOPING_ORG_FILE, mtime), flags).value;
    var ix := core.Index();
    LoopingOrgFileIsLost(w, num);
    assert RecordPointer(ix, 0) == 7;
    NameStands(LOOPING_ORG_FILE, 7, [], charset);
  }

  lemma {:induction false} ZerosAreZero(zeros: seq<Byte>)
    requires forall i | 0 <= i < |zeros| :: zeros[i] == 0
    ensures LittleEndian(zeros) == 0
  {
    if zeros != [] {
      ZerosAreZero(zeros[1..]);
    }
  }
}
