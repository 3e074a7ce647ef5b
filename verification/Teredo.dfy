/**
 The Teredo rewrite (section 4 of RFC 4380): an address under 2001:0000::/32 is
 looked up as its client's IPv4 address, which its last four bytes hold inverted.
 */
module Teredo {
  import opened Bits
  import opened Bytes
  import opened Trie

  predicate IsTeredo(address: seq<Byte>)
    requires |address| == 16
  {
    address[0] == 0x20 && address[1] == 0x01 && address[2] == 0x00 && address[3] == 0x00
  }

  const TWELVE_ZEROS: seq<Byte> := [0, 0, 0, 0, 0, 0, 0, 0, 0, 0, 0, 0]

  function Inverted(b: Byte): Byte { 255 - b }

  /** The address that is looked up for `address` when teredo support is on. */
  function Rewritten(address: seq<Byte>): seq<Byte>
    requires |address| == 16
  {
    if IsTeredo(address) then
      TWELVE_ZEROS + [Inverted(address[12]), Inverted(address[13]), Inverted(address[14]), Inverted(address[15])]
    else address
  }

  /** `__GEOIP_PREPARE_TEREDO`; `b ^ 0xff` on a byte is `255 - b`. */
  method PrepareTeredo(v6: array<Byte>)
    requires v6.Length == 16
    modifies v6
    ensures v6[..] == Rewritten(old(v6[..]))
    ensures var ip := BigEndian(old(v6[..]));
            if Shr(ip, 96) == 0x2001_0000 then BigEndian(v6[..]) == 0xffff_ffff - ip % 0x1_0000_0000
            else v6[..] == old(v6[..])
  {
    IsTeredoIff(v6[..]);
    SoughtNumber(v6[..]);
    if v6[0] != 0x20 {
      return;
    }
    if v6[1] != 0x01 {
      return;
    }
    if v6[2] != 0x00 {
      return;
    }
    if v6[3] != 0x00 {
      return;
    }
    var i := 0;
    while i < 12
      invariant 0 <= i <= 12
      invariant forall k | 0 <= k < i :: v6[k] == 0
      invariant v6[i..] == old(v6[i..])
    {
      v6[i] := 0;
      i := i + 1;
    }
    while i < 16
      invariant 12 <= i <= 16
      invariant forall k | 0 <= k < 12 :: v6[k] == 0
      invariant forall k | 12 <= k < i :: v6[k] == Inverted(old(v6[k]))
      invariant forall k | i <= k < 16 :: v6[k] == old(v6[k])
    {
      v6[i] := 255 - v6[i];
      i := i + 1;
    }
  }

  // ---------------------------------------------------------------- what the rewrite means

  lemma BigEndianLow(high: seq<Byte>, low: seq<Byte>)
    requires |low| == 4
    ensures BigEndian(low) == ((low[0] as int * 256 + low[1]) * 256 + low[2]) * 256 + low[3]
    ensures BigEndian(high + low) == BigEndian(high) * TWO_TO_THE_32 + BigEndian(low)
  {
    var all := high + low;
    var n := |high|;
    assert low[..3][..2] == low[..2] && low[..2][..1] == low[..1] && low[..1][..0] == [];
    assert BigEndian(low[..1]) == low[0];
    assert BigEndian(low[..2]) == low[0] as int * 256 + low[1];
    assert all[..n + 3][..n + 2] == all[..n + 2] && all[..n + 2][..n + 1] == all[..n + 1] && all[..n + 1][..n] == high;
    assert BigEndian(all[..n + 1]) == BigEndian(high) * 256 + low[0];
    assert BigEndian(all[..n + 2]) == BigEndian(all[..n + 1]) * 256 + low[1];
    assert BigEndian(all[..n + 3]) == BigEndian(all[..n + 2]) * 256 + low[2];
  }

  lemma {:induction false} BigEndianZeros(zeros: seq<Byte>)
    requires forall i | 0 <= i < |zeros| :: zeros[i] == 0
    ensures BigEndian(zeros) == 0
  {
    if zeros != [] {
      BigEndianZeros(zeros[..|zeros| - 1]);
    }
  }

  /** The client's IPv4 address: the last four bytes with every bit inverted. */
  function ClientOf(address: seq<Byte>): int
    requires |address| == 16
  {
    ALL_ONES_32 - BigEndian(address[12..])
  }

  /** A Teredo address is looked up as the number of its client, which is the address ::client. */
  lemma TeredoIsClient(address: seq<Byte>)
    requires |address| == 16 && IsTeredo(address)
    ensures BigEndian(Rewritten(address)) == ClientOf(address)
  {
    var low := Rewritten(address)[12..];
    assert Rewritten(address) == TWELVE_ZEROS + low;
    BigEndianLow(TWELVE_ZEROS, low);
    BigEndianZeros(TWELVE_ZEROS);
    BigEndianLow([], address[12..]);
  }

  /** The rewrite is idempotent: its result is never a Teredo address itself. */
  lemma RewriteIsIdempotent(address: seq<Byte>)
    requires |address| == 16
    ensures Rewritten(Rewritten(address)) == Rewritten(address)
    ensures !IsTeredo(Rewritten(address))
  {
  }

  /** The bytes of a big-endian number are determined by it. */
  lemma {:induction false} BigEndianInjective(x: seq<Byte>, y: seq<Byte>)
    requires |x| == |y| && BigEndian(x) == BigEndian(y)
    ensures x == y
  {
    if x != [] {
      var last := |x| - 1;
      assert x[last] == y[last] && BigEndian(x[..last]) == BigEndian(y[..last]);
      BigEndianInjective(x[..last], y[..last]);
      assert x == x[..last] + [x[last]] && y == y[..last] + [y[last]];
    }
  }

  /** Two Teredo addresses are looked up alike exactly when their clients
      are the same: server, flags and port (bytes 4..11) play no part. */
  lemma TeredoDependsOnClientOnly(a: seq<Byte>, b: seq<Byte>)
    requires |a| == 16 && |b| == 16 && IsTeredo(a) && IsTeredo(b)
    ensures Rewritten(a) == Rewritten(b) <==> a[12..] == b[12..]
    ensures Rewritten(a) == Rewritten(b) <==> ClientOf(a) == ClientOf(b)
  {
    TeredoIsClient(a);
    TeredoIsClient(b);
    if ClientOf(a) == ClientOf(b) {
      BigEndianInjective(a[12..], b[12..]);
      assert forall i | 0 <= i < 4 :: a[12 + i] == a[12..][i] == b[12..][i] == b[12 + i];
    }
  }

  /** Shifting a big-endian number by whole bytes drops its last bytes. */
  lemma {:induction false} ShrBigEndian(bytes: seq<Byte>, k: nat)
    requires k <= |bytes|
    ensures Shr(BigEndian(bytes), 8 * k) == BigEndian(bytes[..|bytes| - k])
  {
    if k == 0 {
      assert bytes[..|bytes|] == bytes;
    } else {
      var front := bytes[..|bytes| - 1];
      Pow2Values();
      ShrIsDivision(BigEndian(bytes), 8);
      ShrShr(BigEndian(bytes), 8, 8 * (k - 1));
      ShrBigEndian(front, k - 1);
      assert front[..|front| - (k - 1)] == bytes[..|bytes| - k];
    }
  }

  /** The Teredo addresses are those whose top 32 bits are 2001:0000. */
  lemma IsTeredoIff(address: seq<Byte>)
    requires |address| == 16
    ensures IsTeredo(address) <==> Shr(BigEndian(address), 96) == 0x2001_0000
  {
    var head := address[..4];
    ShrBigEndian(address, 12);
    assert BigEndian([]) == 0;
    BigEndianLow([], head);
    assert [] + head == head;
  }

  /** The number that is looked up for an address: under 2001:0000::/32
      the low 32 bits inverted, elsewhere the address itself. */
  lemma SoughtNumber(address: seq<Byte>)
    requires |address| == 16
    ensures var ip := BigEndian(address);
            BigEndian(Rewritten(address)) == if Shr(ip, 96) == 0x2001_0000 then 0xffff_ffff - ip % 0x1_0000_0000 else ip
  {
    IsTeredoIff(address);
    if IsTeredo(address) {
      TeredoIsClient(address);
      LowBits(address);
    }
  }

  lemma LowBits(address: seq<Byte>)
    requires |address| == 16
    ensures BigEndian(address) % 0x1_0000_0000 == BigEndian(address[12..])
  {
    var high, low := address[..12], address[12..];
    assert address == high + low;
    BigEndianLow(high, low);
    DivModUnique(BigEndian(address), 0x1_0000_0000, BigEndian(high), BigEndian(low));
  }

  /** A number of 32 bits is no Teredo address. */
  lemma ClientIsPlain(plain: seq<Byte>)
    requires |plain| == 16 && BigEndian(plain) < TWO_TO_THE_32
    ensures !IsTeredo(plain)
  {
    assert plain == plain[..12] + plain[12..];
    BigEndianLow(plain[..12], plain[12..]);
    BigEndianZeros(TWELVE_ZEROS);
    BigEndianInjective(plain[..12], TWELVE_ZEROS);
    assert plain[0] == plain[..12][0] == 0;
  }

  /** With teredo support on, every Teredo address gets the answer of the plain address ::client. */
  lemma TeredoLookup(ix: Index, address: seq<Byte>, plain: seq<Byte>)
    requires |address| == 16 && IsTeredo(address)
    requires |plain| == 16 && BigEndian(plain) == ClientOf(address)
    ensures Lookup(ix, IPV6_BITS, BigEndian(Rewritten(address))) == Lookup(ix, IPV6_BITS, BigEndian(Rewritten(plain)))
  {
    TeredoIsClient(address);
    ClientIsPlain(plain);
  }
}
