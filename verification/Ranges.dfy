/**
 Ranges of addresses with one value: the growth loops of the library and the
 report that `geoiplookup -i` makes of them.
 */
module Ranges {
  import opened Bits
  import opened Bytes
  import opened Trie
  import opened Handle
  import opened DottedQuad

  const LAST_ADDRESS: nat := ALL_ONES_32

  /** The value that a lookup returns, 0 for a failing one. */
  function ValueAt(ix: Index, ip: nat): nat {
    Lookup(ix, IPV4_BITS, ip).Value()
  }

  ghost predicate ConstantOn(ix: Index, v: nat, l: nat, r: nat) {
    forall q: nat | l <= q <= r :: ValueAt(ix, q) == v
  }

  /** `[l, r]` is the largest interval around `ip` on which lookups return what they return for `ip`. */
  ghost predicate IsRangeOf(ix: Index, ip: nat, l: nat, r: nat) {
    && l <= ip <= r <= LAST_ADDRESS
    && ConstantOn(ix, ValueAt(ix, ip), l, r)
    && (l > 0 ==> ValueAt(ix, l - 1) != ValueAt(ix, ip))
    && (r < LAST_ADDRESS ==> ValueAt(ix, r + 1) != ValueAt(ix, ip))
  }

  // ---------------------------------------------------------------- ranges as a partition

  lemma RangeIsUnique(ix: Index, ip: nat, l: nat, r: nat, l': nat, r': nat)
    requires IsRangeOf(ix, ip, l, r) && IsRangeOf(ix, ip, l', r')
    ensures l == l' && r == r'
  {
  }

  /** Every address inside a range has that same range. */
  lemma RangeOfMember(ix: Index, ip: nat, l: nat, r: nat, q: nat)
    requires IsRangeOf(ix, ip, l, r) && l <= q <= r
    ensures IsRangeOf(ix, q, l, r)
  {
    assert ValueAt(ix, q) == ValueAt(ix, ip);
  }

  /** Two ranges are the same or disjoint, and neighbours differ in value. */
  lemma RangesPartition(ix: Index, a: nat, la: nat, ra: nat, b: nat, lb: nat, rb: nat)
    requires IsRangeOf(ix, a, la, ra) && IsRangeOf(ix, b, lb, rb)
    ensures (la == lb && ra == rb) || ra < lb || rb < la
    ensures ra + 1 == lb || rb + 1 == la ==> ValueAt(ix, a) != ValueAt(ix, b)
  {
    var q := if la <= lb then lb else la;
    if q <= ra && q <= rb {
      RangeOfMember(ix, a, la, ra, q);
      RangeOfMember(ix, b, lb, rb, q);
      RangeIsUnique(ix, q, la, ra, lb, rb);
    }
    if ra + 1 == lb {
      assert ValueAt(ix, lb) == ValueAt(ix, b);
    }
    if rb + 1 == la {
      assert ValueAt(ix, la) == ValueAt(ix, a);
    }
  }

  /** An address that returns the value of a successful lookup was itself looked up successfully: failures return 0,
      which is a value only where there are no segments, and there every lookup of a nonempty file succeeds. */
  lemma SameValueIsFound(ix: Index, ip: nat, q: nat)
    requires Lookup(ix, IPV4_BITS, ip).Found? && ValueAt(ix, q) == ValueAt(ix, ip)
    ensures Lookup(ix, IPV4_BITS, q).Found?
  {
    PrefixAgreement(ix, IPV4_BITS, ip);
  }

  /** A range of a successful lookup consists of whole netblocks. */
  lemma RangeIsUnionOfNetblocks(ix: Index, ip: nat, l: nat, r: nat, q: nat)
    requires IsRangeOf(ix, ip, l, r) && Lookup(ix, IPV4_BITS, ip).Found? && l <= q <= r
    ensures Lookup(ix, IPV4_BITS, q).Found? && 1 <= Lookup(ix, IPV4_BITS, q).netmask <= IPV4_BITS
    ensures var m := Lookup(ix, IPV4_BITS, q).netmask;
            l <= BlockFirst(IPV4_BITS, q, m) <= q <= BlockLast(IPV4_BITS, q, m) <= r
  {
    SameValueIsFound(ix, ip, q);
    PrefixAgreement(ix, IPV4_BITS, q);
    var m := Lookup(ix, IPV4_BITS, q).netmask;
    var first, last := BlockFirst(IPV4_BITS, q, m), BlockLast(IPV4_BITS, q, m);
    BlockInside(q, m);
  }

  // ---------------------------------------------------------------- mask arithmetic

  lemma BlockInside(ip: nat, m: nat)
    requires ip <= LAST_ADDRESS && 1 <= m <= IPV4_BITS
    ensures BlockLast(IPV4_BITS, ip, m) <= LAST_ADDRESS
  {
    var k := IPV4_BITS - m;
    Pow2Values();
    ShrBelow(ip, k, IPV4_BITS);
    Pow2Add(m, k);
    BlockFits(Shr(ip, k), Pow2(m), Pow2(k));
  }

  /** `0xffffffff << (32 - m)` in 32 bits. */
  function Mask(m: nat): nat
    requires m <= IPV4_BITS
  {
    Shl32(ALL_ONES_32, IPV4_BITS - m)
  }

  /** `0xffffffff & ~mask` on a 64-bit `mask`. */
  function HostBits(mask: nat): nat
    requires mask < TWO_TO_THE_64
  {
    BitAnd(ALL_ONES_32, TWO_TO_THE_64 - 1 - mask)
  }

  lemma MaskIsHighOnes(m: nat)
    requires 1 <= m <= IPV4_BITS
    ensures Mask(m) == HighOnes(IPV4_BITS, IPV4_BITS - m) == TWO_TO_THE_32 - Pow2(IPV4_BITS - m)
    ensures Mask(m) < TWO_TO_THE_32
  {
    var p := Pow2(IPV4_BITS - m);
    Pow2Values();
    Pow2Monotonic(IPV4_BITS - m, IPV4_BITS);
    HighOnesShape(IPV4_BITS, IPV4_BITS - m);
    assert ALL_ONES_32 * p == (p - 1) * TWO_TO_THE_32 + (TWO_TO_THE_32 - p);
    DivModUnique(ALL_ONES_32 * p, TWO_TO_THE_32, p - 1, TWO_TO_THE_32 - p);
  }

  lemma HostBitsOfMask(mask: nat, p: nat)
    requires 1 <= p <= TWO_TO_THE_32 && mask == TWO_TO_THE_32 - p
    ensures HostBits(mask) == p - 1
  {
    var inverted := TWO_TO_THE_64 - 1 - mask;
    Pow2Values();
    AndLowOnes(IPV4_BITS, inverted);
    DivModUnique(inverted, TWO_TO_THE_32, ALL_ONES_32, p - 1);
  }

  /** Masking by a prefix length gives the first address of the block, adding the host bits the last. */
  lemma MaskGivesBlock(ip: nat, m: nat)
    requires ip <= LAST_ADDRESS && 1 <= m <= IPV4_BITS
    ensures Mask(m) < TWO_TO_THE_32
    ensures BitAnd(ip, Mask(m)) == BlockFirst(IPV4_BITS, ip, m)
    ensures BitAnd(ip, Mask(m)) + HostBits(Mask(m)) == BlockLast(IPV4_BITS, ip, m)
  {
    Pow2Values();
    Pow2Monotonic(IPV4_BITS - m, IPV4_BITS);
    MaskIsHighOnes(m);
    AndHighOnes(ip, IPV4_BITS, IPV4_BITS - m);
    HostBitsOfMask(Mask(m), Pow2(IPV4_BITS - m));
  }

  // ---------------------------------------------------------------- growth

  /** One side of the growth: the whole block of `q` carries the value of `q`. */
  lemma BlockIsConstant(ix: Index, q: nat)
    requires q <= LAST_ADDRESS && Lookup(ix, IPV4_BITS, q).Found?
    ensures var m := Lookup(ix, IPV4_BITS, q).netmask;
            && 1 <= m <= IPV4_BITS
            && Mask(m) < TWO_TO_THE_32
            && BitAnd(q, Mask(m)) <= q <= BitAnd(q, Mask(m)) + HostBits(Mask(m)) <= LAST_ADDRESS
            && BitAnd(q, Mask(m)) == BlockFirst(IPV4_BITS, q, m)
            && BitAnd(q, Mask(m)) + HostBits(Mask(m)) == BlockLast(IPV4_BITS, q, m)
            && ConstantOn(ix, ValueAt(ix, q), BitAnd(q, Mask(m)), BitAnd(q, Mask(m)) + HostBits(Mask(m)))
  {
    PrefixAgreement(ix, IPV4_BITS, q);
    var m := Lookup(ix, IPV4_BITS, q).netmask;
    MaskGivesBlock(q, m);
    BlockInside(q, m);
  }

  /** The first loop of `GeoIP_range_by_ip_gl`: one netblock to the left per turn. */
  method GrowLeft(gi: GeoIP, target: nat, start: nat, ghost ip: nat) returns (left: nat)
    requires gi.Walkable()
    requires start <= ip <= LAST_ADDRESS
    requires Lookup(gi.Index(), IPV4_BITS, ip).Found? && target == ValueAt(gi.Index(), ip)
    requires ConstantOn(gi.Index(), target, start, ip)
    modifies gi`netmask
    ensures left <= start
    ensures ConstantOn(gi.Index(), target, left, ip)
    ensures left > 0 ==> ValueAt(gi.Index(), left - 1) != target
  {
    ghost var ix := gi.Index();
    var t := new GeoIPLookup();
    left := start;
    while left != 0
      invariant left <= start
      invariant ConstantOn(ix, target, left, ip)
      decreases left
    {
      var v := gi.SeekRecord(left - 1, t);
      if target != v {
        break;
      }
      SameValueIsFound(ix, ip, left - 1);
      BlockIsConstant(ix, left - 1);
      var mask := Mask(t.netmask);
      left := BitAnd(left - 1, mask);
    }
  }

  /** The second loop: one netblock to the right per turn. */
  method GrowRight(gi: GeoIP, target: nat, start: nat, ghost ip: nat) returns (right: nat)
    requires gi.Walkable()
    requires ip <= start <= LAST_ADDRESS
    requires Lookup(gi.Index(), IPV4_BITS, ip).Found? && target == ValueAt(gi.Index(), ip)
    requires ConstantOn(gi.Index(), target, ip, start)
    modifies gi`netmask
    ensures start <= right <= LAST_ADDRESS
    ensures ConstantOn(gi.Index(), target, ip, right)
    ensures right < LAST_ADDRESS ==> ValueAt(gi.Index(), right + 1) != target
  {
    ghost var ix := gi.Index();
    var t := new GeoIPLookup();
    right := start;
    while right != 0xffffffff
      invariant start <= right <= LAST_ADDRESS
      invariant ConstantOn(ix, target, ip, right)
      decreases LAST_ADDRESS - right
    {
      var v := gi.SeekRecord(right + 1, t);
      if target != v {
        break;
      }
      SameValueIsFound(ix, ip, right + 1);
      BlockIsConstant(ix, right + 1);
      var mask := Mask(t.netmask);
      right := BitAnd(right + 1, mask);
      right := right + HostBits(mask);
    }
  }

  /** The numeric part of `GeoIP_range_by_ip_gl`: the block of the address itself,
      grown to both sides; the handle keeps the netmask of the first lookup. */
  method Grow(gi: GeoIP, ipnum: nat, gl: GeoIPLookup) returns (leftSeek: nat, rightSeek: nat)
    requires gi.Walkable() && ipnum <= LAST_ADDRESS
    requires Lookup(gi.Index(), IPV4_BITS, ipnum).Found?
    modifies gi`netmask, gl
    ensures IsRangeOf(gi.Index(), ipnum, leftSeek, rightSeek)
    ensures gi.netmask == gl.netmask == Lookup(gi.Index(), IPV4_BITS, ipnum).netmask
  {
    BlockIsConstant(gi.Index(), ipnum);
    var targetValue := gi.SeekRecord(ipnum, gl);
    var origNetmask := gl.netmask;
    var mask := Mask(origNetmask);
    leftSeek := BitAnd(ipnum, mask);
    rightSeek := leftSeek + HostBits(mask);
    leftSeek := GrowLeft(gi, targetValue, leftSeek, ipnum);
    rightSeek := GrowRight(gi, targetValue, rightSeek, ipnum);
    gi.netmask := origNetmask;
  }

  /** The two strings that a range query returns. */
  datatype TextRange = TextRange(first: CString, last: CString)

  /** `GeoIP_range_by_ip_gl` with no reload during the call; None is the null result for a null text. A failing
      lookup of the address itself is not covered: the source then shifts by a netmask that nothing has assigned. */
  method RangeByIp(gi: GeoIP, addr: Option<CString>, gl: GeoIPLookup) returns (ret: Option<TextRange>)
    requires gi.Walkable()
    requires addr.Some? ==> Lookup(gi.Index(), IPV4_BITS, AddressValue(addr.value)).Found?
    modifies gi`netmask, gl
    ensures addr.None? ==> ret == None && gi.netmask == old(gi.netmask)
    ensures addr.Some? ==>
              var (ix, ip) := (gi.Index(), AddressValue(addr.value));
              && ret.Some?
              && IsRangeOf(ix, ip, AddressValue(ret.value.first), AddressValue(ret.value.last))
              && ret.value.first == Dotted(AddressValue(ret.value.first))
              && IsTextOf(ret.value.first, AddressValue(ret.value.first))
              && ret.value.last == Dotted(AddressValue(ret.value.last))
              && IsTextOf(ret.value.last, AddressValue(ret.value.last))
              && gi.netmask == gl.netmask == Lookup(ix, IPV4_BITS, ip).netmask
  {
    if addr == None {
      return None;
    }
    var ipnum := AddrToNum(addr.value);
    var leftSeek, rightSeek := Grow(gi, ipnum, gl);
    var texts := PrintRange(leftSeek, rightSeek);
    return Some(texts);
  }

  /** The two texts of a range, which parse back to its ends. */
  method PrintRange(l: nat, r: nat) returns (t: TextRange)
    requires l <= LAST_ADDRESS && r <= LAST_ADDRESS
    ensures t.first == Dotted(l) && AddressValue(t.first) == l && IsTextOf(t.first, l)
    ensures t.last == Dotted(r) && AddressValue(t.last) == r && IsTextOf(t.last, r)
  {
    var first := NumToAddr(l);
    var last := NumToAddr(r);
    DottedQuadRoundTrip(l);
    DottedQuadRoundTrip(r);
    return TextRange(first, last);
  }

  // ---------------------------------------------------------------- the report of geoiplookup -i

  /** What `_say_range_by_ip` prints. */
  datatype Report = Report(
    ipaddr: CString,
    rangeFirst: CString, rangeLast: CString,
    networkFirst: CString, networkLast: CString,
    netmask: int,
    rangeFirstNum: nat, rangeLastNum: nat,
    networkFirstNum: nat, networkLastNum: nat)
  {
    /** The texts of the report are those of its numbers. */
    predicate TextsFit() {
      && IsTextOf(rangeFirst, rangeFirstNum) && IsTextOf(rangeLast, rangeLastNum)
      && IsTextOf(networkFirst, networkFirstNum) && IsTextOf(networkLast, networkLastNum)
    }
  }

  /** The first statement of `_say_range_by_ip`: the address is printed, and the range of its text queried. */
  method QueryRange(gi: GeoIP, ipnum: nat) returns (ipaddr: CString, texts: TextRange)
    requires gi.Walkable()
    requires ipnum <= LAST_ADDRESS && Lookup(gi.Index(), IPV4_BITS, ipnum).Found?
    modifies gi`netmask
    ensures ipaddr == Dotted(ipnum) && IsTextOf(ipaddr, ipnum)
    ensures IsRangeOf(gi.Index(), ipnum, AddressValue(texts.first), AddressValue(texts.last))
    ensures IsTextOf(texts.first, AddressValue(texts.first)) && IsTextOf(texts.last, AddressValue(texts.last))
    ensures gi.netmask == Lookup(gi.Index(), IPV4_BITS, ipnum).netmask
  {
    ipaddr := NumToAddr(ipnum);
    DottedQuadRoundTrip(ipnum);
    var gl := new GeoIPLookup();
    var range := RangeByIp(gi, Some(ipaddr), gl);
    texts := range.value;
  }

  /** `_say_range_by_ip` with the information flag set. */
  method SayRangeByIp(gi: GeoIP, ipnum: nat) returns (r: Report)
    requires gi.Walkable()
    requires ipnum <= LAST_ADDRESS && Lookup(gi.Index(), IPV4_BITS, ipnum).Found?
    modifies gi`netmask
    ensures r.ipaddr == Dotted(ipnum) && IsTextOf(r.ipaddr, ipnum)
    ensures r.TextsFit()
    ensures IsRangeOf(gi.Index(), ipnum, r.rangeFirstNum, r.rangeLastNum)
    ensures r.rangeFirstNum <= r.networkFirstNum <= ipnum <= r.networkLastNum <= r.rangeLastNum
    ensures r.netmask == Lookup(gi.Index(), IPV4_BITS, ipnum).netmask == gi.netmask
    ensures 1 <= r.netmask <= IPV4_BITS
    ensures r.networkFirstNum == BlockFirst(IPV4_BITS, ipnum, r.netmask)
    ensures r.networkLastNum == BlockLast(IPV4_BITS, ipnum, r.netmask)
    ensures AddressValue(r.rangeFirst) == r.rangeFirstNum && AddressValue(r.rangeLast) == r.rangeLastNum
    ensures AddressValue(r.networkFirst) == r.networkFirstNum && AddressValue(r.networkLast) == r.networkLastNum
  {
    var ipaddr, range := QueryRange(gi, ipnum);
    var lastNetmask := gi.netmask;
    NetworkInsideRange(gi.Index(), ipnum, AddressValue(range.first), AddressValue(range.last));
    r := MakeReport(ipnum, ipaddr, range, lastNetmask);
  }

  /** The part of `_say_range_by_ip` behind the range query: the network block is rebuilt from the netmask alone. */
  method MakeReport(ipnum: nat, ipaddr: CString, range: TextRange, lastNetmask: nat) returns (r: Report)
    requires ipnum <= LAST_ADDRESS && 1 <= lastNetmask <= IPV4_BITS
    ensures r.ipaddr == ipaddr && r.netmask == lastNetmask
    ensures r.rangeFirst == range.first && r.rangeFirstNum == AddressValue(range.first)
    ensures r.rangeLast == range.last && r.rangeLastNum == AddressValue(range.last)
    ensures IsTextOf(r.networkFirst, r.networkFirstNum) && IsTextOf(r.networkLast, r.networkLastNum)
    ensures r.networkFirstNum == BlockFirst(IPV4_BITS, ipnum, lastNetmask) == AddressValue(r.networkFirst)
    ensures r.networkLastNum == BlockLast(IPV4_BITS, ipnum, lastNetmask) == AddressValue(r.networkLast)
  {
    MaskGivesBlock(ipnum, lastNetmask);
    BlockInside(ipnum, lastNetmask);
    var mask := Mask(lastNetmask);
    var low := BitAnd(ipnum, mask);
    var hi := low + HostBits(mask);
    var network := PrintRange(low, hi);
    var first := AddrToNum(range.first);
    var last := AddrToNum(range.last);
    return Report(ipaddr, range.first, range.last, network.first, network.last, lastNetmask, first, last, low, hi);
  }

  lemma NetworkInsideRange(ix: Index, ip: nat, l: nat, r: nat)
    requires IsRangeOf(ix, ip, l, r) && Lookup(ix, IPV4_BITS, ip).Found?
    ensures var m := Lookup(ix, IPV4_BITS, ip).netmask;
            && 1 <= m <= IPV4_BITS && Mask(m) < TWO_TO_THE_32
            && BitAnd(ip, Mask(m)) == BlockFirst(IPV4_BITS, ip, m)
            && BitAnd(ip, Mask(m)) + HostBits(Mask(m)) == BlockLast(IPV4_BITS, ip, m)
            && l <= BlockFirst(IPV4_BITS, ip, m) <= ip <= BlockLast(IPV4_BITS, ip, m) <= r
  {
    BlockIsConstant(ix, ip);
    RangeIsUnionOfNetblocks(ix, ip, l, r, ip);
  }
}
