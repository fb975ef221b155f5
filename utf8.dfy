/** UTF-8 as RFC 3629, section 4 ("Syntax of UTF-8 Byte Sequences") defines it.
    This is the behaviour of Rust's `std::str::from_utf8`, of the `valid_up_to`
    of the error it returns, and of `str::chars().count()`, which the counting
    loop calls; here they are specification functions over byte sequences. */
module Utf8 {
  import opened Results

  /** One octet, as Rust's `u8`. */
  newtype Byte = b: int | 0 <= b < 0x100

  /** Rust's `char`: a Unicode scalar value, one of the code points UTF-8
      may encode (0 to 0x10FFFF without the surrogates 0xD800-0xDFFF). */
  type ScalarValue = cp: int | 0 <= cp < 0xD800 || 0xE000 <= cp <= 0x10FFFF

  /** Length of the encoded character that `lead` starts (UTF8-1 .. UTF8-4),
      or 0 when `lead` cannot start one (0x80-0xC1 and 0xF5-0xFF). */
  function Width(lead: Byte): nat {
    if lead < 0x80 then 1
    else if 0xC2 <= lead <= 0xDF then 2
    else if 0xE0 <= lead <= 0xEF then 3
    else if 0xF0 <= lead <= 0xF4 then 4
    else 0
  }

  /** UTF8-tail = %x80-BF */
  predicate IsTail(b: Byte) {
    0x80 <= b <= 0xBF
  }

  /** Least second byte allowed after `lead` (excludes overlong forms). */
  function SecondMin(lead: Byte): Byte {
    if lead == 0xE0 then 0xA0 else if lead == 0xF0 then 0x90 else 0x80
  }

  /** Greatest second byte allowed after `lead` (excludes surrogates and
      code points above 0x10FFFF). */
  function SecondMax(lead: Byte): Byte {
    if lead == 0xED then 0x9F else if lead == 0xF4 then 0x8F else 0xBF
  }

  /** `p` is the start, possibly all, of one encoded character. */
  predicate IsCharPrefix(p: seq<Byte>) {
    && 0 < |p| <= Width(p[0])
    && (|p| > 1 ==> SecondMin(p[0]) <= p[1] <= SecondMax(p[0]))
    && (|p| > 2 ==> IsTail(p[2]))
    && (|p| > 3 ==> IsTail(p[3]))
  }

  /** UTF8-char: `p` is exactly one encoded character. */
  predicate IsChar(p: seq<Byte>) {
    IsCharPrefix(p) && |p| == Width(p[0])
  }

  /** Length of the complete character `s` starts with, or 0 when `s` does
      not start with one. */
  function FirstCharWidth(s: seq<Byte>): nat {
    if s != [] && Width(s[0]) <= |s| && IsChar(s[..Width(s[0])]) then Width(s[0]) else 0
  }

  /** UTF8-octets = *( UTF8-char ). The lead byte fixes each character's
      length, so the split into characters is unique. */
  predicate Valid(s: seq<Byte>)
    decreases |s|
  {
    s == [] || (FirstCharWidth(s) > 0 && Valid(s[FirstCharWidth(s)..]))
  }

  /** What `Utf8Error::valid_up_to` reports: how far a scan from the start
      gets while it reads complete characters. */
  function ValidUpTo(s: seq<Byte>): (n: nat)
    ensures n <= |s|
    decreases |s|
  {
    var w := FirstCharWidth(s);
    if w == 0 then 0 else w + ValidUpTo(s[w..])
  }

  /** The scan stops at a valid prefix. */
  lemma {:induction false} ValidUpToIsValid(s: seq<Byte>)
    ensures Valid(s[..ValidUpTo(s)])
    decreases |s|
  {
    var w := FirstCharWidth(s);
    if w > 0 {
      var n := ValidUpTo(s);
      var p := s[..n];
      ValidUpToIsValid(s[w..]);
      assert p[..w] == s[..w];
      assert FirstCharWidth(p) == w;
      assert p[w..] == s[w..][..ValidUpTo(s[w..])];
    }
  }

  /** ... and at the longest one: no longer prefix is valid. */
  lemma {:induction false} ValidUpToIsLongest(s: seq<Byte>, k: nat)
    requires ValidUpTo(s) < k <= |s|
    ensures !Valid(s[..k])
    decreases |s|
  {
    var p := s[..k];
    if Valid(p) {
      var w := FirstCharWidth(p);
      assert p[..w] == s[..w];
      assert FirstCharWidth(s) == w;
      assert p[w..] == s[w..][..k - w];
      ValidUpToIsLongest(s[w..], k - w);
    }
  }

  /** `from_utf8` succeeds exactly when the scan reaches the end. */
  lemma ValidIffScanCompletes(s: seq<Byte>)
    ensures Valid(s) <==> ValidUpTo(s) == |s|
  {
    if ValidUpTo(s) == |s| {
      ValidUpToIsValid(s);
      assert s[..|s|] == s;
    } else {
      ValidUpToIsLongest(s, |s|);
      assert s[..|s|] == s;
    }
  }

  /** A valid prefix is scanned through, and the scan then goes on in what follows. */
  lemma {:induction false} ValidUpToAppend(a: seq<Byte>, b: seq<Byte>)
    requires Valid(a)
    ensures ValidUpTo(a + b) == |a| + ValidUpTo(b)
    decreases |a|
  {
    if a == [] {
      assert a + b == b;
    } else {
      var w := FirstCharWidth(a);
      FirstCharOfAppend(a, b);
      ValidUpToAppend(a[w..], b);
    }
  }

  /** What the scan leaves over never starts with a complete character. */
  lemma RemainderIsStuck(s: seq<Byte>)
    ensures ValidUpTo(s[ValidUpTo(s)..]) == 0
  {
    var n := ValidUpTo(s);
    ValidUpToIsValid(s);
    ValidUpToAppend(s[..n], s[n..]);
    assert s[..n] + s[n..] == s;
  }

  /** The scan of `s + t` is the scan of `s` followed by the scan of what
      `s` left over with `t` appended: bytes arriving later can only extend
      the valid prefix from where the scan stopped. */
  lemma ValidUpToResume(s: seq<Byte>, t: seq<Byte>)
    ensures var v := ValidUpTo(s);
            var rt := s[v..] + t;
            var w := ValidUpTo(s + t);
            && w == v + ValidUpTo(rt)
            && (s + t)[w..] == rt[ValidUpTo(rt)..]
            && (s + t)[..w] == s[..v] + rt[..ValidUpTo(rt)]
  {
    var v := ValidUpTo(s);
    var rt := s[v..] + t;
    ValidUpToIsValid(s);
    JoinAt(s, t, v);
    ValidUpToAppend(s[..v], rt);
    SplitAt(s[..v], rt, ValidUpTo(rt));
  }

  /** Cutting `s` at `k` and appending `t` to the second part. */
  lemma JoinAt(s: seq<Byte>, t: seq<Byte>, k: nat)
    requires k <= |s|
    ensures s + t == s[..k] + (s[k..] + t)
  {
    assert s == s[..k] + s[k..];
  }

  /** Cutting `p + q` at `|p| + k`. */
  lemma SplitAt(p: seq<Byte>, q: seq<Byte>, k: nat)
    requires k <= |q|
    ensures (p + q)[|p| + k..] == q[k..] && (p + q)[..|p| + k] == p + q[..k]
  {
  }

  /** Every non-empty prefix of a character is a character prefix. */
  lemma CharPrefixOfChar(p: seq<Byte>, k: nat)
    requires IsChar(p) && 0 < k <= |p|
    ensures IsCharPrefix(p[..k])
  {
  }

  /** Bytes that neither start with a complete character nor are the start
      of one can never be completed into a character by what follows. */
  lemma MalformedStaysMalformed(r: seq<Byte>, t: seq<Byte>)
    requires r != [] && FirstCharWidth(r) == 0 && !IsCharPrefix(r)
    ensures FirstCharWidth(r + t) == 0
  {
    var w := Width(r[0]);
    assert (r + t)[0] == r[0];
    if w <= |r| {
      assert (r + t)[..w] == r[..w];
    } else if w <= |r + t| {
      var x := (r + t)[..w];
      assert x[..|r|] == r;
      if IsChar(x) {
        CharPrefixOfChar(x, |r|);
      }
    }
  }

  /** If what the scan leaves over is not the start of a character (it is
      malformed, not merely cut short), no bytes appended later move
      `valid_up_to`: decoding never resumes after malformed input. */
  lemma NoResumeAfterMalformed(s: seq<Byte>, t: seq<Byte>)
    requires ValidUpTo(s) < |s|
    requires !IsCharPrefix(s[ValidUpTo(s)..])
    ensures ValidUpTo(s + t) == ValidUpTo(s)
  {
    var rest := s[ValidUpTo(s)..];
    RemainderIsStuck(s);
    assert FirstCharWidth(rest) == 0;
    MalformedStaysMalformed(rest, t);
    ValidUpToResume(s, t);
  }

  /** A character prefix that is not a complete character is shorter than
      the lead byte announces. */
  lemma IncompleteCharIsShort(p: seq<Byte>)
    requires IsCharPrefix(p) && FirstCharWidth(p) == 0
    ensures |p| < Width(p[0])
  {
    assert p[..|p|] == p;
  }

  /** If what the scan leaves over is the start of a character, it was cut
      short and holds at most 3 bytes. */
  lemma TruncatedRemainderBound(s: seq<Byte>)
    requires IsCharPrefix(s[ValidUpTo(s)..])
    ensures |s| - ValidUpTo(s) <= 3
  {
    RemainderIsStuck(s);
    IncompleteCharIsShort(s[ValidUpTo(s)..]);
  }

  /** While the bytes seen so far can still be completed to valid UTF-8,
      what the scan leaves over is empty or a truncated character. */
  lemma {:induction false} RemainderOfValidPrefix(s: seq<Byte>, t: seq<Byte>)
    requires Valid(s + t)
    ensures s[ValidUpTo(s)..] == [] || IsCharPrefix(s[ValidUpTo(s)..])
    decreases |s|
  {
    if s != [] {
      var w := FirstCharWidth(s + t);
      if w <= |s| {
        assert (s + t)[..w] == s[..w];
        assert FirstCharWidth(s) == w;
        assert s[w..] + t == (s + t)[w..];
        RemainderOfValidPrefix(s[w..], t);
        assert s[w..][ValidUpTo(s[w..])..] == s[ValidUpTo(s)..];
      } else {
        CharPrefixOfChar((s + t)[..w], |s|);
        assert (s + t)[..w][..|s|] == s;
      }
    }
  }

  /** The remainder carried between reads stays within 3 bytes as long as
      the stream read so far is the beginning of valid UTF-8. */
  lemma RemainderBound(s: seq<Byte>, t: seq<Byte>)
    requires Valid(s + t)
    ensures |s| - ValidUpTo(s) <= 3
  {
    RemainderOfValidPrefix(s, t);
    if s[ValidUpTo(s)..] != [] {
      TruncatedRemainderBound(s);
    }
  }

  /** The code point one encoded character stands for. */
  function DecodeChar(p: seq<Byte>): ScalarValue
    requires IsChar(p)
  {
    if |p| == 1 then p[0] as int
    else if |p| == 2 then (p[0] as int - 0xC0) * 0x40 + (p[1] as int - 0x80)
    else if |p| == 3 then
      (p[0] as int - 0xE0) * 0x1000 + (p[1] as int - 0x80) * 0x40 + (p[2] as int - 0x80)
    else
      (p[0] as int - 0xF0) * 0x40000 + (p[1] as int - 0x80) * 0x1000
      + (p[2] as int - 0x80) * 0x40 + (p[3] as int - 0x80)
  }

  /** The UTF-8 encoding of one scalar value (the table of RFC 3629, section 3). */
  function EncodeChar(cp: ScalarValue): seq<Byte> {
    if cp < 0x80 then [cp as Byte]
    else if cp < 0x800 then [(0xC0 + cp / 0x40) as Byte, (0x80 + cp % 0x40) as Byte]
    else if cp < 0x10000 then
      [(0xE0 + cp / 0x1000) as Byte, (0x80 + cp / 0x40 % 0x40) as Byte, (0x80 + cp % 0x40) as Byte]
    else
      [(0xF0 + cp / 0x40000) as Byte, (0x80 + cp / 0x1000 % 0x40) as Byte,
       (0x80 + cp / 0x40 % 0x40) as Byte, (0x80 + cp % 0x40) as Byte]
  }

  /** Every scalar value encodes to one valid character that decodes back to it. */
  lemma EncodeCharRoundTrip(cp: ScalarValue)
    ensures IsChar(EncodeChar(cp)) && DecodeChar(EncodeChar(cp)) == cp
  {
    SixBitGroups(cp);
    if cp < 0x80 {
    } else if cp < 0x800 {
      TwoByteEncode(cp);
    } else if cp < 0x10000 {
      ThreeByteEncode(cp);
    } else {
      FourByteEncode(cp);
    }
  }

  lemma TwoByteEncode(cp: ScalarValue)
    requires 0x80 <= cp < 0x800
    ensures IsChar(EncodeChar(cp)) && DecodeChar(EncodeChar(cp)) == cp
  {
    var p := EncodeChar(cp);
    SixBitGroups(cp);
    assert p[0] as int == 0xC0 + cp / 0x40 && p[1] as int == 0x80 + cp % 0x40;
  }

  lemma ThreeByteEncode(cp: ScalarValue)
    requires 0x800 <= cp < 0x10000
    ensures IsChar(EncodeChar(cp)) && DecodeChar(EncodeChar(cp)) == cp
  {
    var p := EncodeChar(cp);
    SixBitGroups(cp);
    assert p[0] as int == 0xE0 + cp / 0x1000;
    assert p[1] as int == 0x80 + cp / 0x40 % 0x40;
    assert p[2] as int == 0x80 + cp % 0x40;
  }

  lemma FourByteEncode(cp: ScalarValue)
    requires 0x10000 <= cp
    ensures IsChar(EncodeChar(cp)) && DecodeChar(EncodeChar(cp)) == cp
  {
    var p := EncodeChar(cp);
    SixBitGroups(cp);
    assert p[0] as int == 0xF0 + cp / 0x40000;
    assert p[1] as int == 0x80 + cp / 0x1000 % 0x40;
    assert p[2] as int == 0x80 + cp / 0x40 % 0x40;
    assert p[3] as int == 0x80 + cp % 0x40;
  }

  /** Encoding the scalar value a valid character stands for gives the same
      bytes back. */
  lemma DecodeCharRoundTrip(p: seq<Byte>)
    requires IsChar(p)
    ensures EncodeChar(DecodeChar(p)) == p
  {
    if |p| == 1 {
      assert EncodeChar(DecodeChar(p)) == [p[0]];
    } else if |p| == 2 {
      TwoByteRoundTrip(p);
    } else if |p| == 3 {
      ThreeByteRoundTrip(p);
    } else {
      FourByteRoundTrip(p);
    }
  }

  lemma TwoByteRoundTrip(p: seq<Byte>)
    requires IsChar(p) && |p| == 2
    ensures EncodeChar(DecodeChar(p)) == p
  {
    var cp := DecodeChar(p);
    GroupsOf(0, 0, p[0] as int - 0xC0, p[1] as int - 0x80);
    assert 0x80 <= cp < 0x800;
    assert EncodeChar(cp) == [p[0], p[1]];
  }

  lemma ThreeByteRoundTrip(p: seq<Byte>)
    requires IsChar(p) && |p| == 3
    ensures EncodeChar(DecodeChar(p)) == p
  {
    var cp := DecodeChar(p);
    GroupsOf(0, p[0] as int - 0xE0, p[1] as int - 0x80, p[2] as int - 0x80);
    assert 0x800 <= cp < 0x10000;
    assert EncodeChar(cp) == [p[0], p[1], p[2]];
  }

  lemma FourByteRoundTrip(p: seq<Byte>)
    requires IsChar(p) && |p| == 4
    ensures EncodeChar(DecodeChar(p)) == p
  {
    var cp := DecodeChar(p);
    GroupsOf(p[0] as int - 0xF0, p[1] as int - 0x80, p[2] as int - 0x80, p[3] as int - 0x80);
    assert 0x10000 <= cp;
    assert EncodeChar(cp) == [p[0], p[1], p[2], p[3]];
  }

  /** A code point split into its 6-bit groups, high to low. */
  lemma SixBitGroups(cp: ScalarValue)
    ensures cp / 0x40000 <= 4 && cp / 0x1000 % 0x40 < 0x40
    ensures cp == cp / 0x40000 * 0x40000 + cp / 0x1000 % 0x40 * 0x1000 + cp / 0x40 % 0x40 * 0x40 + cp % 0x40
    ensures cp < 0x10000 ==> cp / 0x1000 < 0x10 && cp == cp / 0x1000 * 0x1000 + cp / 0x40 % 0x40 * 0x40 + cp % 0x40
    ensures cp < 0x800 ==> cp / 0x40 < 0x20 && cp == cp / 0x40 * 0x40 + cp % 0x40
    ensures 0x800 <= cp < 0x1000 ==> cp / 0x40 % 0x40 >= 0x20
    ensures 0xD000 <= cp < 0xE000 ==> cp / 0x1000 == 0xD && (cp < 0xD800 <==> cp / 0x40 % 0x40 < 0x20)
    ensures 0x10000 <= cp < 0x40000 ==> cp / 0x1000 % 0x40 >= 0x10
    ensures 0x100000 <= cp ==> cp / 0x40000 == 4 && cp / 0x1000 % 0x40 < 0x10
  {
    var d, q1 := cp % 0x40, cp / 0x40;
    var c, q2 := q1 % 0x40, q1 / 0x40;
    var b, a := q2 % 0x40, q2 / 0x40;
    assert cp == q1 * 0x40 + d && q1 == q2 * 0x40 + c && q2 == a * 0x40 + b;
    DivMod1000(cp, q2, c * 0x40 + d);
    DivMod40000(cp, a, b * 0x1000 + c * 0x40 + d);
  }

  /** Four 6-bit groups put together give back each group. */
  lemma GroupsOf(a: int, b: int, c: int, d: int)
    requires 0 <= a < 8 && 0 <= b < 0x40 && 0 <= c < 0x40 && 0 <= d < 0x40
    ensures var cp := a * 0x40000 + b * 0x1000 + c * 0x40 + d;
      && cp / 0x40000 == a && cp / 0x1000 % 0x40 == b && cp / 0x40 % 0x40 == c && cp % 0x40 == d
      && cp / 0x1000 == a * 0x40 + b && cp / 0x40 == a * 0x1000 + b * 0x40 + c
  {
    var cp := a * 0x40000 + b * 0x1000 + c * 0x40 + d;
    DivMod40(cp, a * 0x1000 + b * 0x40 + c, d);
    DivMod40(a * 0x1000 + b * 0x40 + c, a * 0x40 + b, c);
    DivMod1000(cp, a * 0x40 + b, c * 0x40 + d);
    DivMod40(a * 0x40 + b, a, b);
    DivMod40000(cp, a, b * 0x1000 + c * 0x40 + d);
  }

  /** Quotient and remainder by 0x40, 0x1000 and 0x40000 are unique. */
  lemma DivMod40(x: int, q: int, r: int)
    requires 0 <= r < 0x40 && x == q * 0x40 + r
    ensures x / 0x40 == q && x % 0x40 == r
  {
  }

  lemma DivMod1000(x: int, q: int, r: int)
    requires 0 <= r < 0x1000 && x == q * 0x1000 + r
    ensures x / 0x1000 == q && x % 0x1000 == r
  {
  }

  lemma DivMod40000(x: int, q: int, r: int)
    requires 0 <= r < 0x40000 && x == q * 0x40000 + r
    ensures x / 0x40000 == q && x % 0x40000 == r
  {
  }

  /** The scalar values a valid byte sequence encodes, in order: the `str`
      that `from_utf8` returns, seen as its `chars()`. */
  function Decode(s: seq<Byte>): seq<ScalarValue>
    requires Valid(s)
    decreases |s|
  {
    if s == [] then []
    else
      var w := FirstCharWidth(s);
      [DecodeChar(s[..w])] + Decode(s[w..])
  }

  /** The UTF-8 encoding of a sequence of scalar values. */
  function Encode(cps: seq<ScalarValue>): seq<Byte> {
    if cps == [] then [] else EncodeChar(cps[0]) + Encode(cps[1..])
  }

  /** Encoding gives valid UTF-8, which decodes to what was encoded. */
  lemma {:induction false} DecodeEncode(cps: seq<ScalarValue>)
    ensures Valid(Encode(cps)) && Decode(Encode(cps)) == cps
  {
    if cps != [] {
      var s := Encode(cps);
      var p := EncodeChar(cps[0]);
      EncodeCharRoundTrip(cps[0]);
      DecodeEncode(cps[1..]);
      assert s[..|p|] == p;
      assert FirstCharWidth(s) == |p|;
      assert s[|p|..] == Encode(cps[1..]);
    }
  }

  /** Decoding valid UTF-8 loses nothing: encoding the result gives the bytes back. */
  lemma {:induction false} EncodeDecode(s: seq<Byte>)
    requires Valid(s)
    ensures Encode(Decode(s)) == s
    decreases |s|
  {
    if s != [] {
      var w := FirstCharWidth(s);
      var d := Decode(s);
      assert d[0] == DecodeChar(s[..w]) && d[1..] == Decode(s[w..]);
      calc {
        Encode(d);
        EncodeChar(d[0]) + Encode(d[1..]);
        { DecodeCharRoundTrip(s[..w]); EncodeDecode(s[w..]); }
        s[..w] + s[w..];
        s;
      }
    }
  }

  /** Valid sequences concatenate to a valid sequence, and decoding the
      whole gives the concatenated decodings. */
  lemma {:induction false} DecodeAppend(a: seq<Byte>, b: seq<Byte>)
    requires Valid(a) && Valid(b)
    ensures Valid(a + b) && Decode(a + b) == Decode(a) + Decode(b)
    decreases |a|
  {
    if a == [] {
      assert a + b == b;
    } else {
      var w := FirstCharWidth(a);
      FirstCharOfAppend(a, b);
      DecodeAppend(a[w..], b);
    }
  }

  /** Appending bytes after a complete first character leaves it the first character. */
  lemma FirstCharOfAppend(a: seq<Byte>, b: seq<Byte>)
    requires FirstCharWidth(a) > 0
    ensures var w := FirstCharWidth(a);
            && FirstCharWidth(a + b) == w
            && (a + b)[..w] == a[..w]
            && (a + b)[w..] == a[w..] + b
  {
    var w := FirstCharWidth(a);
    assert (a + b)[0] == a[0];
    assert (a + b)[..w] == a[..w];
  }

  /** Number of bytes that are not continuation bytes (0x80-0xBF). */
  function LeadByteCount(s: seq<Byte>): nat {
    if s == [] then 0 else (if IsTail(s[0]) then 0 else 1) + LeadByteCount(s[1..])
  }

  lemma {:induction false} LeadByteCountAppend(a: seq<Byte>, b: seq<Byte>)
    ensures LeadByteCount(a + b) == LeadByteCount(a) + LeadByteCount(b)
  {
    if a == [] {
      assert a + b == b;
    } else {
      assert (a + b)[1..] == a[1..] + b;
      LeadByteCountAppend(a[1..], b);
    }
  }

  /** One encoded character holds exactly one byte that is not a continuation byte. */
  lemma LeadByteCountOfChar(p: seq<Byte>)
    requires IsChar(p)
    ensures LeadByteCount(p) == 1
  {
    var rest := p[1..];
    assert forall i | 0 <= i < |rest| :: IsTail(rest[i]) by {
      forall i | 0 <= i < |rest| ensures IsTail(rest[i]) {
        assert rest[i] == p[i + 1];
      }
    }
    AllTailsHaveNoLead(rest);
  }

  lemma {:induction false} AllTailsHaveNoLead(s: seq<Byte>)
    requires forall i | 0 <= i < |s| :: IsTail(s[i])
    ensures LeadByteCount(s) == 0
  {
    if s != [] {
      AllTailsHaveNoLead(s[1..]);
    }
  }

  /** The number of characters in valid UTF-8 is the number of its bytes
      that are not continuation bytes, so it can be counted byte by byte. */
  lemma {:induction false} CharCountIsLeadByteCount(s: seq<Byte>)
    requires Valid(s)
    ensures |Decode(s)| == LeadByteCount(s)
    decreases |s|
  {
    if s != [] {
      var w := FirstCharWidth(s);
      LeadByteCountOfChar(s[..w]);
      LeadByteCountAppend(s[..w], s[w..]);
      assert s[..w] + s[w..] == s;
      CharCountIsLeadByteCount(s[w..]);
    }
  }

  /** The error of `from_utf8`: how far the input was valid. */
  datatype Utf8Error = Utf8Error(validUpTo: nat)

  /** Rust's `std::str::from_utf8`: the decoded text if `s` is valid UTF-8,
      otherwise an error whose `valid_up_to` is the length of the longest
      valid prefix. */
  function FromUtf8(s: seq<Byte>): (r: Result<seq<ScalarValue>, Utf8Error>)
    ensures r.Ok? <==> Valid(s)
    ensures r.Ok? ==> r.value == Decode(s) && Encode(r.value) == s
    ensures r.Err? ==> r.error.validUpTo < |s| && Valid(s[..r.error.validUpTo])
    ensures r.Err? ==> forall k | r.error.validUpTo < k <= |s| :: !Valid(s[..k])
  {
    ValidIffScanCompletes(s);
    if ValidUpTo(s) == |s| then
      EncodeDecode(s);
      Ok(Decode(s))
    else
      ValidUpToIsValid(s);
      assert forall k | ValidUpTo(s) < k <= |s| :: !Valid(s[..k]) by {
        forall k | ValidUpTo(s) < k <= |s| {
          ValidUpToIsLongest(s, k);
        }
      }
      Err(Utf8Error(ValidUpTo(s)))
  }
}
