/**
 The conversion of ISO-8859-1 names to UTF-8 (RFC 3629).
 */
module Utf8 {
  import opened Bits
  import opened Bytes

  // ---------------------------------------------------------------- UTF-8 after RFC 3629

  predicate IsContinuation(b: Byte) { 0x80 <= b <= 0xBF }

  /** The first character of a byte string with its length, by the table of section 3 and the syntax of section 4:
      no overlong forms, no surrogates, nothing above U+10FFFF. */
  function FirstCharacter(s: seq<Byte>): Option<(nat, nat)>
    requires s != []
  {
    var lead := s[0] as int;
    if lead <= 0x7F then Some((lead, 1))
    else if 0xC2 <= lead <= 0xDF && |s| >= 2 && IsContinuation(s[1]) then
      Some(((lead - 0xC0) * 0x40 + (s[1] as int - 0x80), 2))
    else if 0xE0 <= lead <= 0xEF && |s| >= 3 && IsContinuation(s[1]) && IsContinuation(s[2]) then
      var c := ((lead - 0xE0) * 0x40 + (s[1] as int - 0x80)) * 0x40 + (s[2] as int - 0x80);
      if c < 0x800 || 0xD800 <= c <= 0xDFFF then None else Some((c, 3))
    else if && 0xF0 <= lead <= 0xF4 && |s| >= 4
            && IsContinuation(s[1]) && IsContinuation(s[2]) && IsContinuation(s[3])
    then
      var high := (lead - 0xF0) * 0x40 + (s[1] as int - 0x80);
      var c := (high * 0x40 + (s[2] as int - 0x80)) * 0x40 + (s[3] as int - 0x80);
      if c < 0x1_0000 || c > 0x10_FFFF then None else Some((c, 4))
    else None
  }

  /** The code points of a byte string; None is a byte string that is not UTF-8. */
  function Decode(s: seq<Byte>): Option<seq<nat>> {
    if s == [] then Some([])
    else
      match FirstCharacter(s)
      case None => None
      case Some((c, n)) =>
        match Decode(s[n..])
        case None => None
        case Some(rest) => Some([c] + rest)
  }

  // ---------------------------------------------------------------- conversion

  /** The UTF-8 form of one ISO-8859-1 character, whose code point is its byte. */
  function Encode(b: Byte): seq<Byte> {
    if b < 0x80 then [b] else [0xC0 + b / 0x40, 0x80 + b % 0x40]
  }

  function Encoded(s: seq<Byte>): seq<Byte> {
    if s == [] then [] else Encoded(s[..|s| - 1]) + Encode(s[|s| - 1])
  }

  function HighCount(s: seq<Byte>): nat {
    if s == [] then 0 else HighCount(s[..|s| - 1]) + if s[|s| - 1] >= 0x80 then 1 else 0
  }

  lemma {:induction false} EncodedLength(s: seq<Byte>)
    ensures |Encoded(s)| == |s| + HighCount(s)
  {
    if s != [] {
      EncodedLength(s[..|s| - 1]);
    }
  }

  lemma {:induction false} EncodedPrefix(s: seq<Byte>, k: nat)
    requires k <= |s|
    ensures Encoded(s[..k]) <= Encoded(s)
    decreases |s|
  {
    if k < |s| {
      EncodedPrefix(s[..|s| - 1], k);
      assert s[..|s| - 1][..k] == s[..k];
    } else {
      assert s[..k] == s;
    }
  }

  /** Reading `s[i]` of a C string: its terminator is a NUL. */
  function CharAt(s: CString, i: nat): Byte
    requires i <= |s|
  {
    if i < |s| then s[i] else 0
  }

  /** `c &= ~0x40` on a negative `c` keeps bit 7 and the low six bits. */
  lemma ClearBit6(b: Byte)
    requires b >= 0x80
    ensures BitAnd(b, 0xBF) == 0x80 + b % 0x40
  {
    var h: nat, l: nat := b / 0x40, b % 0x40;
    SixBits();
    BitAndParts(h, l, 2, 0x3F, 6);
    TopBits(h);
    AndAllOnes(l, 6);
  }

  lemma SixBits()
    ensures Pow2(6) == 0x40
  {
    assert Pow2(3) == 8;
    Pow2Add(3, 3);
  }

  lemma TopBits(h: nat)
    requires 2 <= h <= 3
    ensures BitAnd(h, 2) == 2
  {
    BitAndHalves(h, 2);
    BitAndHalves(h / 2, 1);
  }

  /** The first pass: one byte for every character and the terminator, one more for every negative character. */
  method Utf8Length(iso: CString) returns (len: nat)
    ensures len == |Encoded(iso)| + 1
  {
    len := 0;
    var t := 0;
    var c := CharAt(iso, t);
    t := t + 1;
    while c != 0
      invariant 1 <= t <= |iso| + 1 && c == CharAt(iso, t - 1)
      invariant len == HighCount(iso[..t - 1])
      decreases |iso| + 1 - t
    {
      assert iso[..t][..t - 1] == iso[..t - 1];
      if c >= 0x80 {
        len := len + 1;
      }
      c := CharAt(iso, t);
      t := t + 1;
    }
    assert iso[..t - 1] == iso;
    EncodedLength(iso);
    len := len + t;
  }

  /** One turn of the second pass: writes a character, as two bytes when it is negative. */
  method PutCharacter(p: array<Byte>, t: nat, c: Byte) returns (next: nat)
    requires t + |Encode(c)| <= p.Length
    modifies p
    ensures next == t + |Encode(c)| && p[..next] == old(p[..t]) + Encode(c)
  {
    next := t;
    var low := c;
    if c >= 0x80 {
      var k := 0xC2;
      if c >= 0xC0 {
        k := k + 1;
      }
      assert k == 0xC0 + c / 0x40;
      p[next] := k;
      next := next + 1;
      assert p[..next] == old(p[..t]) + [0xC0 + c / 0x40];
      ClearBit6(c);
      low := BitAnd(c, 0xBF);
    }
    ghost var before := p[..next];
    p[next] := low;
    next := next + 1;
    assert p[..next] == before + [low];
  }

  lemma EncodedStep(s: seq<Byte>, i: nat)
    requires i < |s|
    ensures Encoded(s[..i + 1]) == Encoded(s[..i]) + Encode(s[i])
    ensures |Encoded(s[..i])| + |Encode(s[i])| <= |Encoded(s)|
  {
    assert s[..i + 1][..i] == s[..i];
    EncodedPrefix(s, i + 1);
  }

  /** `_GeoIP_iso_8859_1__utf8`: the second pass fills exactly the bytes that the first one asked for. */
  method Iso88591ToUtf8(iso: CString) returns (p: array<Byte>)
    ensures fresh(p) && p[..] == Encoded(iso) + [0]
  {
    var len := Utf8Length(iso);
    p := new Byte[len];
    var i, t := 0, 0;
    var c := CharAt(iso, i);
    i := i + 1;
    while c != 0
      invariant 1 <= i <= |iso| + 1 && c == CharAt(iso, i - 1)
      invariant 0 <= t < p.Length && p[..t] == Encoded(iso[..i - 1])
      decreases |iso| + 1 - i
    {
      EncodedStep(iso, i - 1);
      t := PutCharacter(p, t, c);
      c := CharAt(iso, i);
      i := i + 1;
    }
    assert iso[..i - 1] == iso;
    p[t] := 0;
  }

  // ---------------------------------------------------------------- the result is UTF-8 and means the input

  lemma {:induction false} EncodedFirst(s: seq<Byte>)
    requires s != []
    ensures Encoded(s) == Encode(s[0]) + Encoded(s[1..])
  {
    if |s| == 1 {
      assert Encoded(s[..0]) == [] && Encoded(s[1..]) == [];
    } else {
      var front := s[..|s| - 1];
      EncodedFirst(front);
      assert front[1..] == s[1..][..|s| - 2];
      assert s[1..][|s| - 2] == s[|s| - 1];
    }
  }

  lemma FirstOfEncoded(b: Byte, rest: seq<Byte>)
    ensures FirstCharacter(Encode(b) + rest) == Some((b as nat, |Encode(b)|))
  {
  }

  /** The output is valid UTF-8, and its code points are the input bytes. */
  lemma {:induction false} Utf8RoundTrip(s: seq<Byte>)
    ensures Decode(Encoded(s)).Some?
    ensures var points := Decode(Encoded(s)).value;
            |points| == |s| && forall i | 0 <= i < |s| :: points[i] == s[i]
  {
    if s != [] {
      EncodedFirst(s);
      FirstOfEncoded(s[0], Encoded(s[1..]));
      Utf8RoundTrip(s[1..]);
      assert Encoded(s)[|Encode(s[0])|..] == Encoded(s[1..]);
    }
  }

  /** The output of a C string is a C string: converting introduces no NUL. */
  lemma {:induction false} EncodedHasNoNul(s: CString)
    ensures 0 !in Encoded(s)
  {
    if s != [] {
      EncodedHasNoNul(s[..|s| - 1]);
      assert s[|s| - 1] in s;
    }
  }
}
