/**
 * `encodeURIComponent` as section 15.1.3.4 of ECMA-262 (5.1) defines it, and its
 * inverse `decodeURIComponent` (section 15.1.3.2): every character outside the
 * unreserved set is written as the percent-encoded bytes of its UTF-8 form. A
 * `char` here is a Unicode scalar value, so the lone surrogates that make the
 * JavaScript function throw do not arise.
 */
module UriEncoding {
  import opened Wrappers

  /** The characters `encodeURIComponent` leaves as they are. */
  predicate Unreserved(c: char)
  {
    ('A' <= c <= 'Z') || ('a' <= c <= 'z') || ('0' <= c <= '9') ||
    c == '-' || c == '_' || c == '.' || c == '!' || c == '~' || c == '*' || c == '\'' || c == '(' || c == ')'
  }

  predicate IsByte(b: int) { 0 <= b < 256 }

  /** The UTF-8 encoding of one scalar value. */
  function Utf8(c: char): (bs: seq<int>)
    ensures 1 <= |bs| <= 4
    ensures forall i :: 0 <= i < |bs| ==> IsByte(bs[i])
  {
    var n := c as int;
    if n < 0x80 then [n]
    else if n < 0x800 then [0xC0 + n / 64, 0x80 + n % 64]
    else if n < 0x10000 then [0xE0 + n / 4096, 0x80 + (n / 64) % 64, 0x80 + n % 64]
    else [0xF0 + n / 262144, 0x80 + (n / 4096) % 64, 0x80 + (n / 64) % 64, 0x80 + n % 64]
  }

  /** An upper-case hexadecimal digit. */
  function HexDigit(d: int): char
    requires 0 <= d < 16
  {
    if d < 10 then ('0' as int + d) as char else ('A' as int + d - 10) as char
  }

  /** The value of a hexadecimal digit of either case. */
  function HexValue(c: char): Option<int>
  {
    if '0' <= c <= '9' then Some(c as int - '0' as int)
    else if 'A' <= c <= 'F' then Some(c as int - 'A' as int + 10)
    else if 'a' <= c <= 'f' then Some(c as int - 'a' as int + 10)
    else None
  }

  predicate IsHexDigit(c: char) { HexValue(c).Some? }

  /** `%XX` for one byte. */
  function Percent(b: int): (r: string)
    requires IsByte(b)
    ensures |r| == 3 && r[0] == '%' && IsHexDigit(r[1]) && IsHexDigit(r[2])
  {
    ['%', HexDigit(b / 16), HexDigit(b % 16)]
  }

  function PercentAll(bs: seq<int>): (r: string)
    requires forall i :: 0 <= i < |bs| ==> IsByte(bs[i])
    ensures |r| == 3 * |bs|
  {
    if |bs| == 0 then "" else Percent(bs[0]) + PercentAll(bs[1..])
  }

  function EncodeChar(c: char): string
  {
    if Unreserved(c) then [c] else PercentAll(Utf8(c))
  }

  /** `encodeURIComponent(s)`. */
  function Encode(s: string): string
  {
    if |s| == 0 then "" else EncodeChar(s[0]) + Encode(s[1..])
  }

  // ---------------------------------------------------------------------------
  // decodeURIComponent

  /** The byte written as `%XX` at the start of `t`. */
  function ReadByte(t: string): Option<int>
  {
    if |t| < 3 || t[0] != '%' then None
    else
      var hi := HexValue(t[1]);
      var lo := HexValue(t[2]);
      if hi.None? || lo.None? then None else Some(hi.value * 16 + lo.value)
  }

  /** The byte written as `%XX` at the `k`-th three-character slot of `s`. */
  function ByteAt(s: string, k: nat): (r: Option<int>)
    ensures r.Some? ==> 3 * k + 3 <= |s|
  {
    if k == 0 then ReadByte(s) else if |s| < 3 then None else ByteAt(s[3..], k - 1)
  }

  /** A continuation byte's six payload bits. */
  function Continuation(s: string, k: nat): Option<int>
  {
    var b := ByteAt(s, k);
    if b.Some? && 0x80 <= b.value < 0xC0 then Some(b.value - 0x80) else None
  }

  /**
   * Decodes the percent-encoded UTF-8 sequence `s` starts with: the character and
   * how many characters of `s` it takes. Overlong forms, surrogates and values past
   * U+10FFFF are refused, as `decodeURIComponent` refuses them.
   */
  function DecodeOne(s: string): (r: Option<(char, nat)>)
    ensures r.Some? ==> 3 <= r.value.1 <= |s|
  {
    var b0 := ByteAt(s, 0);
    if b0.None? then None
    else if b0.value < 0x80 then Some((b0.value as char, 3))
    else if 0xC0 <= b0.value < 0xE0 then
      var x1 := Continuation(s, 1);
      if x1.None? then None
      else
        var cp := (b0.value - 0xC0) * 64 + x1.value;
        if cp < 0x80 then None else Some((cp as char, 6))
    else if 0xE0 <= b0.value < 0xF0 then
      var x1 := Continuation(s, 1);
      var x2 := Continuation(s, 2);
      if x1.None? || x2.None? then None
      else
        var cp := (b0.value - 0xE0) * 4096 + x1.value * 64 + x2.value;
        if cp < 0x800 || (0xD800 <= cp < 0xE000) then None else Some((cp as char, 9))
    else if 0xF0 <= b0.value < 0xF8 then
      var x1 := Continuation(s, 1);
      var x2 := Continuation(s, 2);
      var x3 := Continuation(s, 3);
      if x1.None? || x2.None? || x3.None? then None
      else
        var cp := (b0.value - 0xF0) * 262144 + x1.value * 4096 + x2.value * 64 + x3.value;
        if cp < 0x10000 || cp >= 0x110000 then None else Some((cp as char, 12))
    else None
  }

  /** `decodeURIComponent(s)`; `None` where it throws a `URIError`. */
  function Decode(s: string): Option<string>
    decreases |s|
  {
    if |s| == 0 then Some("")
    else if s[0] != '%' then
      var rest := Decode(s[1..]);
      if rest.None? then None else Some([s[0]] + rest.value)
    else
      var one := DecodeOne(s);
      if one.None? then None
      else
        var rest := Decode(s[one.value.1..]);
        if rest.None? then None else Some([one.value.0] + rest.value)
  }

  // ---------------------------------------------------------------------------
  // Properties

  lemma HexRoundTrip(b: int)
    requires IsByte(b)
    ensures HexValue(HexDigit(b / 16)) == Some(b / 16) && HexValue(HexDigit(b % 16)) == Some(b % 16)
  {
  }

  lemma ReadPercent(b: int, t: string)
    requires IsByte(b)
    ensures ReadByte(Percent(b) + t) == Some(b)
  {
    HexRoundTrip(b);
  }

  lemma PercentAllHead(bs: seq<int>)
    requires forall i :: 0 <= i < |bs| ==> IsByte(bs[i])
    requires |bs| > 0
    ensures PercentAll(bs) == Percent(bs[0]) + PercentAll(bs[1..])
  {
  }

  lemma {:induction false} ByteAtPercent(bs: seq<int>, rest: string, k: nat)
    requires forall i :: 0 <= i < |bs| ==> IsByte(bs[i])
    requires k < |bs|
    ensures ByteAt(PercentAll(bs) + rest, k) == Some(bs[k])
  {
    var t := PercentAll(bs) + rest;
    PercentAllHead(bs);
    var u := PercentAll(bs[1..]) + rest;
    assert t == Percent(bs[0]) + u;
    if k == 0 {
      ReadPercent(bs[0], u);
    } else {
      assert t[3..] == u;
      ByteAtPercent(bs[1..], rest, k - 1);
      assert bs[1..][k - 1] == bs[k];
    }
  }

  lemma BytesAt(c: char, rest: string)
    ensures forall k :: 0 <= k < |Utf8(c)| ==> ByteAt(PercentAll(Utf8(c)) + rest, k) == Some(Utf8(c)[k])
  {
    forall k | 0 <= k < |Utf8(c)| ensures ByteAt(PercentAll(Utf8(c)) + rest, k) == Some(Utf8(c)[k]) {
      ByteAtPercent(Utf8(c), rest, k);
    }
  }

  lemma DecodeUtf8Two(c: char, rest: string)
    requires 0x80 <= c as int < 0x800
    ensures DecodeOne(PercentAll(Utf8(c)) + rest) == Some((c, 6))
  {
    var n := c as int;
    BytesAt(c, rest);
    assert Utf8(c) == [0xC0 + n / 64, 0x80 + n % 64];
    assert (n / 64) * 64 + n % 64 == n;
  }

  lemma DecodeThreeBytes(s: string, b0: int, b1: int, b2: int)
    requires ByteAt(s, 0) == Some(b0) && ByteAt(s, 1) == Some(b1) && ByteAt(s, 2) == Some(b2)
    requires 0xE0 <= b0 < 0xF0 && 0x80 <= b1 < 0xC0 && 0x80 <= b2 < 0xC0
    requires var cp := (b0 - 0xE0) * 4096 + (b1 - 0x80) * 64 + (b2 - 0x80);
      0x800 <= cp < 0xD800 || 0xE000 <= cp < 0x10000
    ensures DecodeOne(s) == Some((((b0 - 0xE0) * 4096 + (b1 - 0x80) * 64 + (b2 - 0x80)) as char, 9))
  {
  }

  lemma DecodeFourBytes(s: string, b0: int, b1: int, b2: int, b3: int)
    requires ByteAt(s, 0) == Some(b0) && ByteAt(s, 1) == Some(b1) && ByteAt(s, 2) == Some(b2) && ByteAt(s, 3) == Some(b3)
    requires 0xF0 <= b0 < 0xF8 && 0x80 <= b1 < 0xC0 && 0x80 <= b2 < 0xC0 && 0x80 <= b3 < 0xC0
    requires 0x10000 <= (b0 - 0xF0) * 262144 + (b1 - 0x80) * 4096 + (b2 - 0x80) * 64 + (b3 - 0x80) < 0x110000
    ensures DecodeOne(s) ==
      Some((((b0 - 0xF0) * 262144 + (b1 - 0x80) * 4096 + (b2 - 0x80) * 64 + (b3 - 0x80)) as char, 12))
  {
  }

  lemma DecodeUtf8Three(c: char, rest: string)
    requires 0x800 <= c as int < 0x10000
    ensures DecodeOne(PercentAll(Utf8(c)) + rest) == Some((c, 9))
  {
    var n := c as int;
    var b0, b1, b2 := 0xE0 + n / 4096, 0x80 + (n / 64) % 64, 0x80 + n % 64;
    assert Utf8(c) == [b0, b1, b2];
    BytesAt(c, rest);
    assert (n / 4096) * 4096 + ((n / 64) % 64) * 64 + n % 64 == n;
    DecodeThreeBytes(PercentAll(Utf8(c)) + rest, b0, b1, b2);
  }

  lemma FourByteDigits(n: int)
    requires 0 <= n
    ensures (n / 262144) * 262144 + ((n / 4096) % 64) * 4096 + ((n / 64) % 64) * 64 + n % 64 == n
  {
    var q1 := n / 64;
    var q2 := q1 / 64;
    var q3 := q2 / 64;
    assert n == q1 * 64 + n % 64;
    assert q1 == q2 * 64 + q1 % 64;
    assert q2 == q3 * 64 + q2 % 64;
    assert q2 * 4096 <= n < q2 * 4096 + 4096;
    assert n / 4096 == q2;
    assert q3 * 262144 <= n < q3 * 262144 + 262144;
    assert n / 262144 == q3;
  }

  lemma DecodeUtf8Four(c: char, rest: string)
    requires 0x10000 <= c as int
    ensures DecodeOne(PercentAll(Utf8(c)) + rest) == Some((c, 12))
  {
    var n := c as int;
    var b0, b1, b2, b3 := 0xF0 + n / 262144, 0x80 + (n / 4096) % 64, 0x80 + (n / 64) % 64, 0x80 + n % 64;
    var bs := Utf8(c);
    assert bs == [b0, b1, b2, b3];
    var s := PercentAll(bs) + rest;
    ByteAtPercent(bs, rest, 0);
    ByteAtPercent(bs, rest, 1);
    ByteAtPercent(bs, rest, 2);
    ByteAtPercent(bs, rest, 3);
    FourByteDigits(n);
    DecodeFourBytes(s, b0, b1, b2, b3);
  }

  /** The percent-encoded UTF-8 form of a character decodes back to that character. */
  lemma DecodeOneUtf8(c: char, rest: string)
    ensures DecodeOne(PercentAll(Utf8(c)) + rest) == Some((c, 3 * |Utf8(c)|))
  {
    var n := c as int;
    if n < 0x80 {
      BytesAt(c, rest);
    } else if n < 0x800 {
      DecodeUtf8Two(c, rest);
    } else if n < 0x10000 {
      DecodeUtf8Three(c, rest);
    } else {
      DecodeUtf8Four(c, rest);
    }
  }

  lemma DecodeEncodeChar(c: char, rest: string)
    ensures Decode(EncodeChar(c) + rest) == if Decode(rest).Some? then Some([c] + Decode(rest).value) else None
  {
    var s := EncodeChar(c) + rest;
    if Unreserved(c) {
      assert s[1..] == rest;
    } else {
      DecodeOneUtf8(c, rest);
      assert s[3 * |Utf8(c)|..] == rest;
    }
  }

  /** `decodeURIComponent(encodeURIComponent(s)) == s`. */
  lemma {:induction false} DecodeEncode(s: string)
    ensures Decode(Encode(s)) == Some(s)
  {
    if |s| > 0 {
      DecodeEncode(s[1..]);
      DecodeEncodeChar(s[0], Encode(s[1..]));
      assert [s[0]] + s[1..] == s;
    }
  }

  /** What `encodeURIComponent` can produce: unreserved characters, `%` and hexadecimal digits. */
  predicate UriSafe(c: char)
  {
    Unreserved(c) || c == '%' || IsHexDigit(c)
  }

  predicate AllSafe(s: string)
  {
    forall i :: 0 <= i < |s| ==> UriSafe(s[i])
  }

  lemma AllSafeConcat(a: string, b: string)
    requires AllSafe(a) && AllSafe(b)
    ensures AllSafe(a + b)
  {
    assert forall i :: 0 <= i < |a + b| ==> (a + b)[i] == if i < |a| then a[i] else b[i - |a|];
  }

  lemma {:induction false} PercentAllSafe(bs: seq<int>)
    requires forall i :: 0 <= i < |bs| ==> IsByte(bs[i])
    ensures AllSafe(PercentAll(bs))
  {
    if |bs| > 0 {
      PercentAllSafe(bs[1..]);
      AllSafeConcat(Percent(bs[0]), PercentAll(bs[1..]));
    }
  }

  lemma {:induction false} EncodeSafe(s: string)
    ensures AllSafe(Encode(s))
  {
    if |s| > 0 {
      EncodeSafe(s[1..]);
      if !Unreserved(s[0]) {
        PercentAllSafe(Utf8(s[0]));
      }
      AllSafeConcat(EncodeChar(s[0]), Encode(s[1..]));
    }
  }

  /** An encoded value never holds the separators of a query string. */
  lemma EncodeHasNoSeparators(s: string)
    ensures '&' !in Encode(s) && '=' !in Encode(s) && ',' !in Encode(s)
  {
    EncodeSafe(s);
  }
}
