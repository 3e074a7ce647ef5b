/**
 Dotted-quad text and numbers.  The library and the `geoiplookup` program each
 have their own copy of both conversions, with the same code.
 */
module DottedQuad {
  import opened Bits
  import opened Bytes

  const DOT: Byte := 46
  const ZERO: Byte := 48
  const TWO_TO_THE_64: nat := 0x1_0000_0000_0000_0000

  predicate IsDigit(c: Byte) { ZERO <= c <= 57 }

  // ---------------------------------------------------------------- meaning of a text

  /** The parts of a text between its dots; a text with k dots has k + 1 parts, some possibly empty. */
  function Groups(s: seq<Byte>): (groups: seq<seq<Byte>>)
    ensures |groups| >= 1
  {
    if s == [] then [[]]
    else
      var groups := Groups(s[..|s| - 1]);
      var (c, last) := (s[|s| - 1], |groups| - 1);
      if c == DOT then groups + [[]] else groups[last := groups[last] + [c]]
  }

  predicate AllDigits(g: seq<Byte>) {
    forall i | 0 <= i < |g| :: IsDigit(g[i])
  }

  /** The number that a digit string writes, of any length. */
  function DecimalValue(g: seq<Byte>): int {
    if g == [] then 0 else 10 * DecimalValue(g[..|g| - 1]) + (g[|g| - 1] as int - ZERO)
  }

  /** What a part counts for: its value in 32-bit unsigned arithmetic. */
  function Octet(g: seq<Byte>): nat {
    DecimalValue(g) % TWO_TO_THE_32
  }

  predicate IsOctet(g: seq<Byte>) {
    AllDigits(g) && Octet(g) <= 255
  }

  /** The texts that the parser accepts. */
  predicate IsAddress(s: seq<Byte>) {
    |Groups(s)| == 4 && forall k | 0 <= k < 4 :: IsOctet(Groups(s)[k])
  }

  /** What the parser returns. */
  function AddressValue(s: seq<Byte>): (n: nat)
    ensures n < TWO_TO_THE_32
  {
    if IsAddress(s) then
      var g := Groups(s);
      ((Octet(g[0]) * 256 + Octet(g[1])) * 256 + Octet(g[2])) * 256 + Octet(g[3])
    else 0
  }

  // ---------------------------------------------------------------- parsing

  /** `ipnum <<= 8; ipnum += octet` on a 64-bit `ipnum`. */
  function ShiftIn(ipnum: nat, octet: nat): nat {
    (Shl(ipnum, 8) % TWO_TO_THE_64 + octet) % TWO_TO_THE_64
  }

  /** What the parser makes of the rest of a text, from its three loop variables. */
  function ParseFrom(s: seq<Byte>, octet: nat, ipnum: nat, i: int): nat {
    if s == [] then (if octet > 255 || i != 0 then 0 else ShiftIn(ipnum, octet))
    else if s[0] == DOT then (if octet > 255 then 0 else ParseFrom(s[1..], 0, ShiftIn(ipnum, octet), i - 1))
    else if !IsDigit(s[0]) then 0
    else ParseFrom(s[1..], TimesTen(octet, s[0] as int - ZERO), ipnum, i)
  }

  /** `GeoIP_addr_to_num`, and `__addr_to_num` of geoiplookup. */
  method AddrToNum(addr: CString) returns (ipnum: nat)
    ensures ipnum == AddressValue(addr)
  {
    var octet: nat := 0;
    var i := 3;
    ipnum := 0;
    var k := 0;
    assert addr[k..] == addr;
    ParserMeaning(addr);
    while k < |addr|
      invariant 0 <= k <= |addr|
      invariant ParseFrom(addr, 0, 0, 3) == ParseFrom(addr[k..], octet, ipnum, i)
    {
      var c := addr[k];
      assert addr[k..][1..] == addr[k + 1..];
      if c == DOT {
        if octet > 255 {
          return 0;
        }
        ipnum := ShiftIn(ipnum, octet);
        i := i - 1;
        octet := 0;
      } else {
        if !IsDigit(c) {
          return 0;
        }
        octet := TimesTenPlus(octet, c as int - ZERO);
      }
      k := k + 1;
    }
    if octet > 255 || i != 0 {
      return 0;
    }
    return ShiftIn(ipnum, octet);
  }

  /** The parser returns the value of the text as its parts define it. */
  lemma ParserMeaning(s: CString)
    ensures ParseFrom(s, 0, 0, 3) == AddressValue(s)
  {
    assert s[0..] == s && s[..0] == [];
    ParserMeaningFrom(s, 0, [], [], 0, 0, 3);
  }

  lemma {:induction false} ParserMeaningFrom(s: CString, k: nat, done: seq<seq<Byte>>, cur: seq<Byte>, octet: nat,
                                             ipnum: nat, i: int)
    requires k <= |s| && Groups(s[..k]) == done + [cur] && ParsedSoFar(done, cur, octet, ipnum, i)
    ensures ParseFrom(s[k..], octet, ipnum, i) == AddressValue(s)
    decreases |s| - k
  {
    if k == |s| {
      assert s[..k] == s;
      Finish(s, done, cur, octet, ipnum, i);
    } else {
      var c := s[k];
      assert s[..k + 1] == s[..k] + [c] && s[k..][1..] == s[k + 1..];
      if c == DOT {
        GroupsOfDot(s[..k]);
        if octet > 255 {
          assert (done + [cur] + [[]])[|done|] == cur;
          RejectedStaysRejected(s[..k + 1], s, |done|);
        } else {
          StepDot(done, cur, octet, ipnum, i);
          ParserMeaningFrom(s, k + 1, done + [cur], [], 0, ShiftIn(ipnum, octet), i - 1);
        }
      } else {
        GroupsOfCharacter(s[..k], c);
        assert (done + [cur])[|done| := cur + [c]] == done + [cur + [c]];
        if IsDigit(c) {
          StepDigit(done, cur, octet, ipnum, i, c);
          ParserMeaningFrom(s, k + 1, done, cur + [c], TimesTen(octet, c as int - ZERO), ipnum, i);
        } else {
          assert (cur + [c])[|cur|] == c;
          RejectedStaysRejected(s[..k + 1], s, |done|);
        }
      }
    }
  }

  /** The parser's variables after a text whose parts are `done` and, still open, `cur`. */
  ghost predicate ParsedSoFar(done: seq<seq<Byte>>, cur: seq<Byte>, octet: nat, ipnum: nat, i: int) {
    && i == 3 - |done|
    && (forall k | 0 <= k < |done| :: IsOctet(done[k]))
    && AllDigits(cur)
    && octet == Octet(cur)
    && ipnum == Packed(done) % TWO_TO_THE_64
  }

  lemma Finish(s: seq<Byte>, done: seq<seq<Byte>>, cur: seq<Byte>, octet: nat, ipnum: nat, i: int)
    requires Groups(s) == done + [cur] && ParsedSoFar(done, cur, octet, ipnum, i)
    ensures if octet > 255 || i != 0 then AddressValue(s) == 0
            else AddressValue(s) == ShiftIn(ipnum, octet)
  {
    var g := Groups(s);
    assert g[|done|] == cur;
    if octet > 255 || i != 0 {
      assert |g| == 4 ==> !IsOctet(g[3]);
    } else {
      assert g[..3] == done;
      FourGroups(g);
      ShiftInSmall(Packed(done), octet);
    }
  }

  lemma ShiftInSmall(p: nat, octet: nat)
    requires p < 0x100_0000 && octet <= 255
    ensures p % TWO_TO_THE_64 == p && ShiftIn(p, octet) == p * 256 + octet
  {
    Pow2Values();
  }

  /** `octet * 8 + octet + octet + d`, every step modulo 2^32. */
  function TimesTen(octet: nat, d: nat): nat {
    (((Shl32(octet, 3) + octet) % TWO_TO_THE_32 + octet) % TWO_TO_THE_32 + d) % TWO_TO_THE_32
  }

  method TimesTenPlus(octet: nat, d: nat) returns (r: nat)
    ensures r == TimesTen(octet, d)
  {
    var t := octet;
    r := Shl32(octet, 3);
    r := (r + t) % TWO_TO_THE_32;
    r := (r + t) % TWO_TO_THE_32;
    r := (r + d) % TWO_TO_THE_32;
  }

  /** The wrapping digit step tracks the decimal value of the text modulo 2^32. */
  lemma TimesTenTracks(octet: nat, d: nat, v: int)
    requires octet == v % TWO_TO_THE_32
    ensures TimesTen(octet, d) == (10 * v + d) % TWO_TO_THE_32
  {
    assert Pow2(3) == 8;
    var m := TWO_TO_THE_32;
    var a := Shl32(octet, 3) + octet;
    var b := a % m + octet;
    var c := b % m + d;
    var k := octet * 8 / m + a / m + b / m + c / m;
    assert v == v / m * m + octet;
    assert c % m == 10 * octet + d - k * m;
    DivModUnique(10 * v + d, m, 10 * (v / m) + k, c % m);
  }

  lemma StepDot(done: seq<seq<Byte>>, cur: seq<Byte>, octet: nat, ipnum: nat, i: int)
    requires ParsedSoFar(done, cur, octet, ipnum, i) && octet <= 255
    ensures ParsedSoFar(done + [cur], [], 0, ShiftIn(ipnum, octet), i - 1)
  {
    AppendOctet(done, cur);
    PackStep(Packed(done), ipnum, octet);
  }

  lemma PackStep(p: nat, ipnum: nat, octet: nat)
    requires ipnum == p % TWO_TO_THE_64
    ensures ShiftIn(ipnum, octet) == (p * 256 + octet) % TWO_TO_THE_64
  {
    Pow2Values();
    var m := TWO_TO_THE_64;
    var a := ipnum * 256;
    var b := a % m + octet;
    assert p == p / m * m + ipnum;
    DivModUnique(p * 256 + octet, m, p / m * 256 + a / m + b / m, b % m);
  }

  lemma StepDigit(done: seq<seq<Byte>>, cur: seq<Byte>, octet: nat, ipnum: nat, i: int, c: Byte)
    requires ParsedSoFar(done, cur, octet, ipnum, i) && IsDigit(c)
    ensures ParsedSoFar(done, cur + [c], TimesTen(octet, c as int - ZERO), ipnum, i)
  {
    DecimalAppend(cur, c);
    TimesTenTracks(octet, c as int - ZERO, DecimalValue(cur));
  }

  lemma GroupsOfCharacter(s: seq<Byte>, c: Byte)
    requires c != DOT
    ensures var g := Groups(s); Groups(s + [c]) == g[|g| - 1 := g[|g| - 1] + [c]]
  {
    assert (s + [c])[..|s|] == s;
  }

  lemma DecimalAppend(g: seq<Byte>, c: Byte)
    ensures DecimalValue(g + [c]) == 10 * DecimalValue(g) + (c as int - ZERO)
  {
    assert (g + [c])[..|g|] == g;
  }

  /** The number whose base-256 digits are the given parts. */
  function Packed(groups: seq<seq<Byte>>): nat {
    if groups == [] then 0
    else Packed(groups[..|groups| - 1]) * 256 + Octet(groups[|groups| - 1])
  }

  lemma AppendOctet(groups: seq<seq<Byte>>, g: seq<Byte>)
    ensures Packed(groups + [g]) == Packed(groups) * 256 + Octet(g)
  {
    assert (groups + [g])[..|groups|] == groups;
  }

  lemma FourGroups(g: seq<seq<Byte>>)
    requires |g| == 4
    ensures Packed(g[..3]) == (Octet(g[0]) * 256 + Octet(g[1])) * 256 + Octet(g[2])
  {
    assert g[..3][..2] == g[..2] && g[..2][..1] == g[..1] && g[..1][..0] == [];
    assert Packed(g[..1]) == Octet(g[0]);
    assert Packed(g[..2]) == Octet(g[0]) * 256 + Octet(g[1]);
  }

  /** Text that follows leaves the finished parts alone and only appends to the last one. */
  lemma {:induction false} GroupsExtend(s: seq<Byte>, more: seq<Byte>)
    ensures var (g, h) := (Groups(s), Groups(s + more)); var last := |g| - 1;
            && |h| >= |g|
            && h[..last] == g[..last]
            && g[last] <= h[last]
  {
    if more == [] {
      assert s + more == s;
    } else {
      var shorter := more[..|more| - 1];
      GroupsExtend(s, shorter);
      assert (s + more)[..|s + more| - 1] == s + shorter;
    }
  }

  /** A part that is finished and no octet, or that holds a character
      which is no digit, is never repaired by more text. */
  lemma RejectedStaysRejected(s: seq<Byte>, full: seq<Byte>, k: nat)
    requires s <= full && k < |Groups(s)|
    requires !AllDigits(Groups(s)[k]) || (k < |Groups(s)| - 1 && !IsOctet(Groups(s)[k]))
    ensures !IsAddress(full)
  {
    var more := full[|s|..];
    assert full == s + more;
    GroupsExtend(s, more);
    var (g, h) := (Groups(s), Groups(full));
    var last := |g| - 1;
    if k < last {
      assert h[k] == h[..last][k] == g[..last][k] == g[k];
    } else {
      var i :| 0 <= i < |g[k]| && !IsDigit(g[k][i]);
      assert h[k][i] == g[k][i];
    }
    assert !IsOctet(h[k]);
  }

  // ---------------------------------------------------------------- printing

  /** The shortest decimal text of an octet, as `sprintf("%d")` prints it. */
  function Decimal(b: Byte): (g: seq<Byte>)
    ensures 1 <= |g| <= 3 && AllDigits(g)
  {
    if b < 10 then [ZERO + b]
    else if b < 100 then [ZERO + b / 10, ZERO + b % 10]
    else [ZERO + b / 100, ZERO + b / 10 % 10, ZERO + b % 10]
  }

  /** Octet `i` of an address, 0 being the most significant. */
  function OctetOf(n: nat, i: nat): Byte
    requires i < 4
  {
    Shr(n, 8 * (3 - i)) % 256
  }

  /** The decimal texts of the four octets of an address. */
  function OctetTexts(n: nat): (texts: seq<seq<Byte>>)
    ensures |texts| == 4
  {
    seq(4, i requires 0 <= i < 4 => Decimal(OctetOf(n, i)))
  }

  /** The parts with a dot between each two. */
  function Joined(parts: seq<seq<Byte>>): seq<Byte> {
    if |parts| == 0 then []
    else if |parts| == 1 then parts[0]
    else Joined(parts[..|parts| - 1]) + [DOT] + parts[|parts| - 1]
  }

  /** The text of the low 32 bits of a number. */
  function Dotted(n: nat): seq<Byte> {
    Joined(OctetTexts(n))
  }

  lemma JoinedStep(parts: seq<seq<Byte>>, i: nat)
    requires i < |parts|
    ensures Joined(parts[..i + 1]) == (if i == 0 then [] else Joined(parts[..i]) + [DOT]) + parts[i]
  {
    assert parts[..i + 1][..i] == parts[..i];
  }

  /** Up to four octets have a text without NUL that fits a 16-byte buffer together with its terminator. */
  lemma {:induction false} JoinedFits(n: nat, count: nat)
    requires 1 <= count <= 4
    ensures var s := Joined(OctetTexts(n)[..count]);
            |s| < 4 * count <= 16 && forall c | c in s :: IsDigit(c) || c == DOT
  {
    var parts := OctetTexts(n)[..count];
    if count > 1 {
      JoinedFits(n, count - 1);
      assert parts[..count - 1] == OctetTexts(n)[..count - 1];
    }
    assert AllDigits(parts[count - 1]);
  }

  /** `sprintf(cur_str, "%d", octet)`: the digits and a NUL. */
  method PrintOctet(ptr: array<Byte>, cur: nat, octet: Byte) returns (written: nat)
    requires cur + 4 <= ptr.Length
    modifies ptr
    ensures written == |Decimal(octet)|
    ensures ptr[..cur] == old(ptr[..cur])
    ensures ptr[cur..cur + written] == Decimal(octet) && ptr[cur + written] == 0
  {
    var digits := Decimal(octet);
    written := |digits|;
    var i := 0;
    while i < written
      invariant i <= written
      invariant ptr[..cur] == old(ptr[..cur])
      invariant ptr[cur..cur + i] == digits[..i]
    {
      ptr[cur + i] := digits[i];
      i := i + 1;
    }
    ptr[cur + written] := 0;
  }

  /** One octet and, unless it is the last, its dot. */
  method PrintPart(ptr: array<Byte>, cur: nat, octet: Byte, dot: bool) returns (next: nat)
    requires cur + 4 <= ptr.Length
    modifies ptr
    ensures cur < next <= cur + 4 && next <= ptr.Length && (!dot ==> next < cur + 4 && ptr[next] == 0)
    ensures ptr[..next] == old(ptr[..cur]) + Decimal(octet) + if dot then [DOT] else []
  {
    var written := PrintOctet(ptr, cur, octet);
    next := cur + written;
    assert ptr[..next] == ptr[..cur] + ptr[cur..next];
    if dot {
      ptr[next] := DOT;
      next := next + 1;
    }
  }

  /** The first loop of both printers: `octet[3 - i] = ipnum % 256; ipnum >>= 8`. */
  method SplitOctets(ipnum: nat) returns (octets: seq<Byte>)
    ensures octets == seq(4, i requires 0 <= i < 4 => OctetOf(ipnum, i))
  {
    var octet := new Byte[4];
    var rest := ipnum;
    var i := 0;
    while i < 4
      invariant 0 <= i <= 4 && rest == Shr(ipnum, 8 * i)
      invariant forall k | 4 - i <= k < 4 :: octet[k] == OctetOf(ipnum, k)
    {
      octet[3 - i] := rest % 256;
      ShrShr(ipnum, 8 * i, 8);
      rest := Shr(rest, 8);
      i := i + 1;
    }
    return octet[..];
  }

  /** `__num_to_addr_r` of geoiplookup: prints into a caller's
      buffer of at least 16 bytes; `n` is the length of the text. */
  method NumToAddrR(ipnum: nat, ptr: array<Byte>) returns (n: nat)
    requires ptr.Length >= 16
    modifies ptr
    ensures n < 16 && ptr[..n] == Dotted(ipnum) && ptr[n] == 0
    ensures IsTextOf(ptr[..n], ipnum)
  {
    var octet := SplitOctets(ipnum);
    ghost var texts := OctetTexts(ipnum);
    var cur := 0;
    var i := 0;
    while i < 4
      invariant 0 <= i <= 4 && cur <= 4 * i
      invariant ptr[..cur] == if i == 0 then [] else if i < 4 then Joined(texts[..i]) + [DOT] else Joined(texts[..i])
      invariant i == 4 ==> cur < 16 && ptr[cur] == 0
    {
      JoinedStep(texts, i);
      JoinedFits(ipnum, i + 1);
      cur := PrintPart(ptr, cur, octet[i], i < 3);
      i := i + 1;
    }
    assert texts[..4] == texts;
    DottedIff(ptr[..cur], ipnum);
    return cur;
  }

  /** `GeoIP_num_to_addr`: the same into a fresh 16-byte buffer. */
  method NumToAddr(ipnum: nat) returns (s: CString)
    ensures s == Dotted(ipnum) && IsTextOf(s, ipnum)
  {
    var buffer := new Byte[16];
    var n := NumToAddrR(ipnum, buffer);
    JoinedFits(ipnum, 4);
    assert OctetTexts(ipnum)[..4] == OctetTexts(ipnum);
    return buffer[..n];
  }

  // ---------------------------------------------------------------- the texts, character by character

  /** A digit string without leading zeros. */
  predicate IsShortest(g: seq<Byte>) {
    && g != [] && (forall i | 0 <= i < |g| :: 48 <= g[i] <= 57)
    && (|g| > 1 ==> g[0] != 48)
  }

  /** A number has one such digit string. */
  lemma {:induction false} ShortestIsUnique(g: seq<Byte>, h: seq<Byte>)
    requires IsShortest(g) && IsShortest(h) && DecimalValue(g) == DecimalValue(h)
    ensures g == h
  {
    var (front, rear) := (g[..|g| - 1], h[..|h| - 1]);
    DecimalNonnegative(front);
    DecimalNonnegative(rear);
    assert DecimalValue(front) == DecimalValue(rear);
    assert g == front + [g[|g| - 1]] && h == rear + [h[|h| - 1]];
    if front != [] {
      ShortestIsPositive(front);
      assert rear != [] by { assert DecimalValue([]) == 0; }
      assert IsShortest(front) && IsShortest(rear);
      ShortestIsUnique(front, rear);
    } else if rear != [] {
      ShortestIsPositive(rear);
    }
  }

  lemma {:induction false} ShortestIsPositive(g: seq<Byte>)
    requires g != [] && AllDigits(g) && g[0] != 48
    ensures DecimalValue(g) > 0
  {
    if |g| == 1 {
      assert g[..0] == [];
    } else {
      ShortestIsPositive(g[..|g| - 1]);
    }
  }

  /** The text of the low 32 bits of `n`: four parts without leading zeros, the most significant octet first. */
  predicate IsTextOf(s: seq<Byte>, n: nat) {
    && |Groups(s)| == 4
    && forall k | 0 <= k < 4 ::
         IsShortest(Groups(s)[k]) && DecimalValue(Groups(s)[k]) == n / Pow2(8 * (3 - k)) % 256
  }

  /** Splitting a text at its dots and joining the parts gives the text. */
  lemma {:induction false} JoinedGroups(s: seq<Byte>)
    ensures Joined(Groups(s)) == s
  {
    if s != [] {
      var (front, c) := (s[..|s| - 1], s[|s| - 1]);
      var groups := Groups(front);
      var last := |groups| - 1;
      JoinedGroups(front);
      assert s == front + [c];
      if c == DOT {
        assert (groups + [[]])[..|groups|] == groups;
      } else {
        assert groups[last := groups[last] + [c]][..last] == groups[..last];
      }
    }
  }

  /** The printed text is the one text of the address. */
  lemma DottedIff(s: seq<Byte>, n: nat)
    ensures s == Dotted(n) <==> IsTextOf(s, n)
  {
    var texts := OctetTexts(n);
    forall k | 0 <= k < 4
      ensures IsShortest(texts[k]) && DecimalValue(texts[k]) == n / Pow2(8 * (3 - k)) % 256
    {
      DecimalRoundTrip(OctetOf(n, k));
      ShrIsDivision(n, 8 * (3 - k));
    }
    GroupsOfJoined(texts);
    if IsTextOf(s, n) {
      forall k | 0 <= k < 4
        ensures Groups(s)[k] == texts[k]
      {
        ShortestIsUnique(Groups(s)[k], texts[k]);
      }
      assert Groups(s) == texts;
      JoinedGroups(s);
    }
  }

  /** A group as the parser accepts it: digits, at most 255 modulo 2^32; it may be empty. */
  predicate IsAccepted(g: seq<Byte>) {
    (forall i | 0 <= i < |g| :: 48 <= g[i] <= 57) && DecimalValue(g) % 0x1_0000_0000 <= 255
  }

  /** Four parts with dots between them. */
  ghost predicate IsQuad(s: seq<Byte>, a: seq<Byte>, b: seq<Byte>, c: seq<Byte>, d: seq<Byte>) {
    && s == a + [46] + b + [46] + c + [46] + d
    && IsAccepted(a) && IsAccepted(b) && IsAccepted(c) && IsAccepted(d)
  }

  lemma JoinedFour(g: seq<seq<Byte>>)
    requires |g| == 4
    ensures Joined(g) == g[0] + [46] + g[1] + [46] + g[2] + [46] + g[3]
  {
    JoinedStep(g, 0);
    JoinedStep(g, 1);
    JoinedStep(g, 2);
    JoinedStep(g, 3);
    assert g[..4] == g;
  }

  /** What the parser makes of a text, character by character: every text of
      four accepted groups has the number that they stand for modulo 2^32. */
  lemma QuadValue(s: seq<Byte>, a: seq<Byte>, b: seq<Byte>, c: seq<Byte>, d: seq<Byte>)
    requires IsQuad(s, a, b, c, d)
    ensures IsAddress(s)
    ensures var m := 0x1_0000_0000;
            AddressValue(s)
            == DecimalValue(a) % m * 0x100_0000 + DecimalValue(b) % m * 0x1_0000 + DecimalValue(c) % m * 0x100
               + DecimalValue(d) % m
  {
    var g := [a, b, c, d];
    JoinedFour(g);
    GroupsOfJoined(g);
  }

  /** And the accepted texts are no others; so they consist of dots and digits only. */
  lemma AcceptedTexts(s: seq<Byte>)
    ensures IsAddress(s) <==> exists a, b, c, d :: IsQuad(s, a, b, c, d)
    ensures IsAddress(s) ==> forall i | 0 <= i < |s| :: s[i] == 46 || 48 <= s[i] <= 57
    ensures !IsAddress(s) ==> AddressValue(s) == 0
  {
    if IsAddress(s) {
      var g := Groups(s);
      JoinedGroups(s);
      JoinedFour(g);
      assert IsAccepted(g[0]) && IsAccepted(g[1]) && IsAccepted(g[2]) && IsAccepted(g[3]);
      assert IsQuad(s, g[0], g[1], g[2], g[3]);
      QuadCharacters(s, g[0], g[1], g[2], g[3]);
    }
    forall a, b, c, d | IsQuad(s, a, b, c, d)
      ensures IsAddress(s)
    {
      QuadValue(s, a, b, c, d);
    }
  }

  lemma QuadCharacters(s: seq<Byte>, a: seq<Byte>, b: seq<Byte>, c: seq<Byte>, d: seq<Byte>)
    requires IsQuad(s, a, b, c, d)
    ensures forall i | 0 <= i < |s| :: s[i] == 46 || 48 <= s[i] <= 57
  {
    var p := a + [46] + b;
    var q := p + [46] + c;
    assert forall i | 0 <= i < |p| :: p[i] == 46 || 48 <= p[i] <= 57;
    assert forall i | 0 <= i < |q| :: q[i] == 46 || 48 <= q[i] <= 57;
    assert s == q + [46] + d;
  }

  // ---------------------------------------------------------------- round trip

  lemma {:induction false} GroupsOfDigits(s: seq<Byte>, g: seq<Byte>)
    requires AllDigits(g)
    ensures var h := Groups(s); Groups(s + g) == h[|h| - 1 := h[|h| - 1] + g]
  {
    var h := Groups(s);
    if g == [] {
      assert s + g == s && h[|h| - 1] + g == h[|h| - 1];
    } else {
      var shorter := g[..|g| - 1];
      GroupsOfDigits(s, shorter);
      assert (s + g)[..|s + g| - 1] == s + shorter;
      assert h[|h| - 1] + shorter + [g[|g| - 1]] == h[|h| - 1] + g;
    }
  }

  lemma GroupsOfDot(s: seq<Byte>)
    ensures Groups(s + [DOT]) == Groups(s) + [[]]
  {
    assert (s + [DOT])[..|s|] == s;
  }

  lemma DecimalRoundTrip(b: Byte)
    ensures DecimalValue(Decimal(b)) == b && IsOctet(Decimal(b)) && Octet(Decimal(b)) == b
  {
    var g := Decimal(b);
    if b < 10 {
      assert g[..0] == [];
    } else if b < 100 {
      assert g[..1] == [ZERO + b / 10] && g[..1][..0] == [];
      assert DecimalValue(g[..1]) == b / 10;
    } else {
      assert g[..2] == [ZERO + b / 100, ZERO + b / 10 % 10];
      assert g[..2][..1] == [ZERO + b / 100] && g[..2][..1][..0] == [];
      assert DecimalValue(g[..2][..1]) == b / 100;
      assert DecimalValue(g[..2]) == 10 * (b / 100) + b / 10 % 10 == b / 10;
    }
  }

  /** Splitting at the dots undoes joining, for any parts of digits. */
  lemma {:induction false} GroupsOfJoined(parts: seq<seq<Byte>>)
    requires |parts| >= 1 && forall k | 0 <= k < |parts| :: AllDigits(parts[k])
    ensures Groups(Joined(parts)) == parts
  {
    var last := |parts| - 1;
    if last == 0 {
      GroupsOfDigits([], parts[0]);
      assert [] + parts[0] == parts[0];
    } else {
      var front := parts[..last];
      GroupsOfJoined(front);
      GroupsOfDot(Joined(front));
      GroupsOfDigits(Joined(front) + [DOT], parts[last]);
      assert [] + parts[last] == parts[last];
      assert front + [parts[last]] == parts;
    }
  }

  /** The dotted-quad round trip: the text of an address parses back to the address. */
  lemma DottedQuadRoundTrip(n: nat)
    requires n < TWO_TO_THE_32
    ensures AddressValue(Dotted(n)) == n
  {
    PrintsLowBits(n);
  }

  /** The text of any number parses back to its low 32 bits. */
  lemma PrintsLowBits(n: nat)
    ensures AddressValue(Dotted(n)) == n % TWO_TO_THE_32
  {
    var texts := OctetTexts(n);
    GroupsOfJoined(texts);
    forall k | 0 <= k < 4
      ensures IsOctet(texts[k]) && Octet(texts[k]) == OctetOf(n, k)
    {
      DecimalRoundTrip(OctetOf(n, k));
    }
    Reassembly(n);
  }

  lemma Reassembly(n: nat)
    ensures ((OctetOf(n, 0) as int * 256 + OctetOf(n, 1)) * 256 + OctetOf(n, 2)) * 256 + OctetOf(n, 3)
         == n % TWO_TO_THE_32
  {
    Pow2Values();
    ShrIsDivision(n, 8);
    var a := n / 256;
    var b := a / 256;
    var c := b / 256;
    ShrShr(n, 8, 8);
    ShrIsDivision(a, 8);
    ShrShr(n, 16, 8);
    ShrIsDivision(b, 8);
    assert Shr(n, 16) == b && Shr(n, 24) == c;
    var r := ((c % 256 * 256 + b % 256) * 256 + a % 256) * 256 + n % 256;
    DivModUnique(n, TWO_TO_THE_32, c / 256, r);
  }

  const OVERFLOWING: CString := [52, 50, 57, 52, 57, 54, 55, 50, 57, 55]

  lemma DecimalOfPrefix(digits: seq<Byte>, k: nat)
    requires k < |digits|
    ensures DecimalValue(digits[..k + 1]) == 10 * DecimalValue(digits[..k]) + (digits[k] as int - ZERO)
  {
    DecimalAppend(digits[..k], digits[k]);
    assert digits[..k + 1] == digits[..k] + [digits[k]];
  }

  lemma OverflowingValue()
    ensures DecimalValue(OVERFLOWING) == 4294967297
  {
    var digits := OVERFLOWING;
    DecimalOfPrefix(digits, 0);
    DecimalOfPrefix(digits, 1);
    DecimalOfPrefix(digits, 2);
    DecimalOfPrefix(digits, 3);
    DecimalOfPrefix(digits, 4);
    DecimalOfPrefix(digits, 5);
    DecimalOfPrefix(digits, 6);
    DecimalOfPrefix(digits, 7);
    DecimalOfPrefix(digits, 8);
    DecimalOfPrefix(digits, 9);
    assert digits[..0] == [] && digits[..10] == digits;
  }

  /** Octets are compared after wrapping, so an accepted text may write
      a number above 255: a last octet 4294967297 is read as 1. */
  lemma OverflowingOctetIsAccepted(n: nat)
    ensures var s := Joined(OctetTexts(n)[3 := OVERFLOWING]);
            && DecimalValue(OVERFLOWING) == 4294967297
            && Groups(s) == OctetTexts(n)[3 := OVERFLOWING]
            && IsAddress(s)
            && AddressValue(s) == ((OctetOf(n, 0) as int * 256 + OctetOf(n, 1)) * 256 + OctetOf(n, 2)) * 256 + 1
  {
    var parts := OctetTexts(n)[3 := OVERFLOWING];
    OverflowingValue();
    forall k | 0 <= k < 4
      ensures IsOctet(parts[k]) && Octet(parts[k]) == if k < 3 then OctetOf(n, k) else 1
    {
      DecimalRoundTrip(OctetOf(n, k));
    }
    GroupsOfJoined(parts);
  }

  /** The octets of an accepted text are what they say exactly when
      none of them is written with a value of 2^32 or more. */
  lemma AcceptedOctetsAreExact(s: CString)
    requires IsAddress(s)
    ensures (forall k | 0 <= k < 4 :: Octet(Groups(s)[k]) == DecimalValue(Groups(s)[k]) <= 255)
       <==> (forall k | 0 <= k < 4 :: DecimalValue(Groups(s)[k]) < TWO_TO_THE_32)
  {
    forall k | 0 <= k < 4
      ensures DecimalValue(Groups(s)[k]) >= 0
    {
      DecimalNonnegative(Groups(s)[k]);
    }
  }

  lemma {:induction false} DecimalNonnegative(g: seq<Byte>)
    requires AllDigits(g)
    ensures DecimalValue(g) >= 0
  {
    if g != [] {
      DecimalNonnegative(g[..|g| - 1]);
    }
  }
}
