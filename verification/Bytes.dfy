/**
 Bytes, C strings, the two byte orders of the library, and positioned reads of
 an open file.
 */
module Bytes {
  import opened Bits

  type Byte = b: int | 0 <= b < 256

  /** The bytes of a C string before its terminating NUL. */
  type CString = s: seq<Byte> | 0 !in s

  datatype Option<+T> = None | Some(value: T)

  /** The number stored least significant byte first, as in every record of a database file. */
  function LittleEndian(bytes: seq<Byte>): nat {
    if bytes == [] then 0 else bytes[0] + 256 * LittleEndian(bytes[1..])
  }

  function LittleEndianBytes(n: nat, count: nat): (bytes: seq<Byte>)
    ensures |bytes| == count
  {
    if count == 0 then [] else [n % 256] + LittleEndianBytes(n / 256, count - 1)
  }

  lemma {:induction false} LittleEndianRoundTrip(n: nat, count: nat)
    requires n < Pow2(8 * count)
    ensures LittleEndian(LittleEndianBytes(n, count)) == n
  {
    if count == 0 {
    } else {
      Pow2Values();
      Pow2Add(8, 8 * (count - 1));
      LittleEndianRoundTrip(n / 256, count - 1);
    }
  }

  lemma {:induction false} LittleEndianBound(bytes: seq<Byte>)
    ensures LittleEndian(bytes) < Pow2(8 * |bytes|)
  {
    if bytes == [] {
    } else {
      LittleEndianBound(bytes[1..]);
      Pow2Values();
      Pow2Add(8, 8 * (|bytes| - 1));
    }
  }

  /** The number stored most significant byte first, as in an IPv6 address in network order. */
  function BigEndian(bytes: seq<Byte>): nat {
    if bytes == [] then 0 else BigEndian(bytes[..|bytes| - 1]) * 256 + bytes[|bytes| - 1]
  }

  /** Bit `k` of a big-endian number is bit `k % 8` of its byte number `k / 8` from the end. */
  lemma {:induction false} BigEndianBit(bytes: seq<Byte>, k: nat)
    requires k < 8 * |bytes|
    ensures Bit(BigEndian(bytes), k) == Bit(bytes[|bytes| - 1 - k / 8], k % 8)
  {
    var last := |bytes| - 1;
    var n, high := BigEndian(bytes), BigEndian(bytes[..last]);
    Pow2Values();
    ShrIsDivision(n, 8);
    assert Shr(n, 8) == high;
    if k >= 8 {
      ShrShr(n, 8, k - 8);
      BigEndianBit(bytes[..last], k - 8);
    } else {
      HighPartIgnored(high, bytes[last], 8, k);
    }
  }

  /** `pread(fno, buf, count, offset)`: None is the error return, a shorter result is end of file. */
  function Pread(file: seq<Byte>, count: nat, offset: int): Option<seq<Byte>> {
    if offset < 0 then None
    else if offset >= |file| then Some([])
    else Some(file[offset..if offset + count <= |file| then offset + count else |file|])
  }

  /** `part` stands in `s` at offset `at`. */
  predicate StandsAt<T(==)>(s: seq<T>, at: nat, part: seq<T>) {
    at + |part| <= |s| && forall i | 0 <= i < |part| :: part[i] == s[at + i]
  }

  lemma StandsIsSlice<T>(s: seq<T>, at: nat, part: seq<T>)
    ensures StandsAt(s, at, part) <==> at + |part| <= |s| && s[at..at + |part|] == part
  {
    if at + |part| <= |s| && s[at..at + |part|] == part {
      forall i | 0 <= i < |part|
        ensures part[i] == s[at + i]
      {
        assert s[at..at + |part|][i] == s[at + i];
      }
    }
  }

  lemma StandsConcat<T>(s: seq<T>, at: nat, a: seq<T>, b: seq<T>)
    ensures StandsAt(s, at, a + b) <==> StandsAt(s, at, a) && StandsAt(s, at + |a|, b)
  {
    if StandsAt(s, at, a + b) {
      assert forall i | 0 <= i < |a| :: a[i] == (a + b)[i];
      assert forall i | 0 <= i < |b| :: b[i] == (a + b)[|a| + i];
    }
  }

  lemma StandsInside<T>(s: seq<T>, at: nat, whole: seq<T>, offset: nat, part: seq<T>)
    requires StandsAt(s, at, whole) && StandsAt(whole, offset, part)
    ensures StandsAt(s, at + offset, part)
  {
    forall i | 0 <= i < |part|
      ensures part[i] == s[at + offset + i]
    {
      assert part[i] == whole[offset + i];
    }
  }

  lemma StandsParts<T>(s: seq<T>, at: nat, head: T, a: seq<T>, b: seq<T>)
    requires StandsAt(s, at, [head] + a + b)
    ensures at < |s| && s[at] == head
    ensures StandsAt(s, at + 1, a)
    ensures StandsAt(s, at + 1 + |a|, b)
  {
    StandsConcat(s, at, [head] + a, b);
    StandsConcat(s, at, [head], a);
    assert [head][0] == s[at + 0];
  }
}
