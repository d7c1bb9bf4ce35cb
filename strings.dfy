/**
 * String operations of the JavaScript runtime that the modelled code relies on:
 * `Array.prototype.join`, `String.prototype.split` on one character, the default
 * `Array.prototype.sort` order, `slice`, the global `replace` of a fixed pattern,
 * `Number.prototype.toString` on integers and `JSON.parse` on integer literals.
 * A JavaScript string is a sequence of UTF-16 code units; here it is a `seq<char>`.
 */
module Strings {
  import opened Wrappers

  predicate IsDigit(c: char) { '0' <= c <= '9' }

  predicate AllDigits(s: string) { forall i :: 0 <= i < |s| ==> IsDigit(s[i]) }

  /** `toUpperCase` on one character, restricted to the ASCII letters. */
  function Upper(c: char): char
  {
    if 'a' <= c <= 'z' then (c as int - 32) as char else c
  }

  predicate StartsWith(s: string, prefix: string)
  {
    |prefix| <= |s| && s[..|prefix|] == prefix
  }

  predicate EndsWith(s: string, suffix: string)
  {
    |suffix| <= |s| && s[|s| - |suffix|..] == suffix
  }

  /** `String.prototype.slice(from, to)` with non-negative bounds. */
  function Slice(s: string, from: int, to: int): (r: string)
    ensures |r| <= |s|
  {
    var a := if from < 0 then 0 else if from > |s| then |s| else from;
    var b := if to < 0 then 0 else if to > |s| then |s| else to;
    if a < b then s[a..b] else ""
  }

  /** `s.slice(1, -1)`: drops the first and the last character; "" when fewer than two. */
  function StripEnds(s: string): (r: string)
    ensures |s| >= 2 ==> r == s[1..|s| - 1]
    ensures |s| < 2 ==> r == ""
  {
    Slice(s, 1, |s| - 1)
  }

  // ---------------------------------------------------------------------------
  // join / split

  /** `parts.join(sep)`. */
  function Join(parts: seq<string>, sep: string): string
  {
    if |parts| == 0 then ""
    else if |parts| == 1 then parts[0]
    else parts[0] + sep + Join(parts[1..], sep)
  }

  /** `s.split(d)` for a one-character separator: never empty, "" gives [""]. */
  function Split(s: string, d: char): (r: seq<string>)
    ensures |r| >= 1
  {
    if |s| == 0 then [""]
    else
      var rest := Split(s[1..], d);
      if s[0] == d then [""] + rest
      else [[s[0]] + rest[0]] + rest[1..]
  }

  lemma {:induction false} SplitNoDelimiter(s: string, d: char)
    requires d !in s
    ensures Split(s, d) == [s]
  {
    if |s| > 0 {
      SplitNoDelimiter(s[1..], d);
      assert [s[0]] + s[1..] == s;
    }
  }

  lemma {:induction false} SplitAtDelimiter(a: string, d: char, b: string)
    requires d !in a
    ensures Split(a + [d] + b, d) == [a] + Split(b, d)
  {
    if |a| == 0 {
      assert a + [d] + b == [d] + b;
      assert ([d] + b)[1..] == b;
    } else {
      SplitAtDelimiter(a[1..], d, b);
      assert (a + [d] + b)[1..] == a[1..] + [d] + b;
      assert [a[0]] + a[1..] == a;
    }
  }

  /** Splitting a join on a character no part contains gives back the parts. */
  lemma {:induction false} SplitJoin(parts: seq<string>, d: char)
    requires |parts| >= 1
    requires forall i :: 0 <= i < |parts| ==> d !in parts[i]
    ensures Split(Join(parts, [d]), d) == parts
  {
    if |parts| == 1 {
      SplitNoDelimiter(parts[0], d);
    } else {
      SplitJoin(parts[1..], d);
      SplitAtDelimiter(parts[0], d, Join(parts[1..], [d]));
      assert parts[0] + [d] + Join(parts[1..], [d]) == Join(parts, [d]);
      assert [parts[0]] + parts[1..] == parts;
    }
  }

  lemma JoinTwo(a: string, b: string, sep: string)
    ensures Join([a, b], sep) == a + sep + b
  {
    assert [a, b][1..] == [b];
  }

  // ---------------------------------------------------------------------------
  // the default sort order of `Array.prototype.sort` (code unit order)

  /**
   * The position of a character in UTF-16 code unit order. A character outside the
   * Basic Multilingual Plane is written as a surrogate pair, whose high surrogate
   * (0xD800-0xDBFF) sorts below the characters 0xE000-0xFFFF; distinct characters
   * differ in their first code unit or, for two pairs with the same high surrogate,
   * in the low one.
   */
  function UnitRank(c: char): (r: int)
    ensures c as int < 0xD800 ==> r == c as int * 0x400
    ensures 0xE000 <= c as int < 0x10000 ==> r == c as int * 0x400
    ensures 0x10000 <= c as int ==> 0xD800 * 0x400 <= r < 0xDC00 * 0x400
  {
    if c as int < 0x10000 then c as int * 0x400 else 0xD800 * 0x400 + (c as int - 0x10000)
  }

  predicate StrLess(a: string, b: string)
  {
    if |a| == 0 then |b| > 0
    else if |b| == 0 then false
    else if a[0] != b[0] then UnitRank(a[0]) < UnitRank(b[0])
    else StrLess(a[1..], b[1..])
  }

  /**
   * A character above the Basic Multilingual Plane sorts before one in 0xE000-0xFFFF,
   * though its scalar value is larger.
   */
  lemma SurrogatePairSortsLow(a: char, b: char)
    requires 0x10000 <= a as int && 0xE000 <= b as int < 0x10000
    ensures StrLess([a], [b]) && b < a
  {
  }

  lemma {:induction false} StrLessAsymmetric(a: string, b: string)
    ensures !(StrLess(a, b) && StrLess(b, a))
  {
    if |a| > 0 && |b| > 0 && a[0] == b[0] {
      StrLessAsymmetric(a[1..], b[1..]);
    }
  }

  /** Inserts `x` into a sorted sequence, after the elements it is not less than. */
  function Insert(x: string, s: seq<string>): (r: seq<string>)
    ensures |r| == |s| + 1
    ensures r[0] == x || (|s| > 0 && r[0] == s[0])
    ensures multiset(r) == multiset(s) + multiset{x}
  {
    if |s| == 0 then [x]
    else if StrLess(x, s[0]) then [x] + s
    else
      assert s == [s[0]] + s[1..];
      [s[0]] + Insert(x, s[1..])
  }

  predicate Sorted(s: seq<string>)
  {
    forall i :: 0 < i < |s| ==> !StrLess(s[i], s[i - 1])
  }

  lemma {:induction false} InsertSorted(x: string, s: seq<string>)
    requires Sorted(s)
    ensures Sorted(Insert(x, s))
  {
    if |s| > 0 {
      if StrLess(x, s[0]) {
        StrLessAsymmetric(x, s[0]);
      } else {
        InsertSorted(x, s[1..]);
      }
    }
  }

  /** `[...s].sort()`: the strings of `s` in code unit order. */
  function Sort(s: seq<string>): (r: seq<string>)
    ensures |r| == |s|
    ensures multiset(r) == multiset(s)
  {
    if |s| == 0 then []
    else
      assert s == [s[0]] + s[1..];
      Insert(s[0], Sort(s[1..]))
  }

  /** The default sort orders its input and only permutes it. */
  lemma {:induction false} SortSorted(s: seq<string>)
    ensures Sorted(Sort(s)) && multiset(Sort(s)) == multiset(s)
  {
    if |s| > 0 {
      SortSorted(s[1..]);
      InsertSorted(s[0], Sort(s[1..]));
    }
  }

  // ---------------------------------------------------------------------------
  // global replacement of fixed patterns

  /** Every occurrence of `c` written twice (`s.replace(/c/g, "cc")`). */
  function Double(s: string, c: char): string
  {
    if |s| == 0 then ""
    else if s[0] == c then [c, c] + Double(s[1..], c)
    else [s[0]] + Double(s[1..], c)
  }

  /** `s.replace(/cc/g, "c")`: every pair `cc`, scanned left to right, becomes `c`. */
  function Undouble(s: string, c: char): string
  {
    if |s| < 2 then s
    else if s[0] == c && s[1] == c then [c] + Undouble(s[2..], c)
    else [s[0]] + Undouble(s[1..], c)
  }

  /** Collapsing pairs undoes doubling. */
  lemma {:induction false} UndoubleDouble(s: string, c: char)
    ensures Undouble(Double(s, c), c) == s
  {
    if |s| > 0 {
      UndoubleDouble(s[1..], c);
      if s[0] == c {
        assert ([c, c] + Double(s[1..], c))[2..] == Double(s[1..], c);
      } else {
        if |Double(s[1..], c)| == 0 {
          assert Double(s, c) == [s[0]];
        } else {
          assert ([s[0]] + Double(s[1..], c))[1..] == Double(s[1..], c);
        }
      }
      assert [s[0]] + s[1..] == s;
    }
  }

  /** `s.replace(/c/g, r)` for a one-character pattern `c`. */
  function ReplaceChar(s: string, c: char, r: string): string
  {
    if |s| == 0 then ""
    else (if s[0] == c then r else [s[0]]) + ReplaceChar(s[1..], c, r)
  }

  // ---------------------------------------------------------------------------
  // integers as text

  function DigitChar(d: nat): char
    requires d < 10
  {
    ('0' as int + d) as char
  }

  function DigitValue(c: char): nat
    requires IsDigit(c)
  {
    c as int - '0' as int
  }

  /** `n.toString()` for a non-negative integer. */
  function NatToString(n: nat): (s: string)
    ensures |s| >= 1 && AllDigits(s)
    ensures s[0] == '0' ==> n == 0 && |s| == 1
  {
    if n < 10 then [DigitChar(n)] else NatToString(n / 10) + [DigitChar(n % 10)]
  }

  /** `i.toString()` for an integer. */
  function IntToString(i: int): (s: string)
  {
    if i < 0 then "-" + NatToString(-i) else NatToString(i)
  }

  /** The value of a non-empty run of decimal digits. */
  function DigitsValue(s: string): nat
    requires AllDigits(s)
  {
    if |s| == 0 then 0 else DigitsValue(s[..|s| - 1]) * 10 + DigitValue(s[|s| - 1])
  }

  lemma {:induction false} DigitsOfNat(n: nat)
    ensures DigitsValue(NatToString(n)) == n
  {
    if n >= 10 {
      DigitsOfNat(n / 10);
      var s := NatToString(n);
      assert s[..|s| - 1] == NatToString(n / 10);
    }
  }

  /** The grammar of an integer in JSON: `-?(0|[1-9][0-9]*)`. */
  predicate IsJsonInteger(s: string)
  {
    var t := if |s| > 0 && s[0] == '-' then s[1..] else s;
    |t| >= 1 && AllDigits(t) && (t[0] != '0' || |t| == 1)
  }

  /** `JSON.parse(s)` for a JSON integer; `None` for every other text. */
  function ParseJsonInteger(s: string): Option<int>
  {
    if !IsJsonInteger(s) then None
    else if s[0] == '-' then Some(-(DigitsValue(s[1..]) as int))
    else Some(DigitsValue(s))
  }

  /** Printing an integer and parsing it back gives the integer. */
  lemma IntToStringParses(i: int)
    ensures ParseJsonInteger(IntToString(i)) == Some(i)
  {
    if i < 0 {
      var t := NatToString(-i);
      NatTextIsInteger(-i);
      var s := "-" + t;
      assert s[0] == '-' && s[1..] == t;
      assert IsJsonInteger(s);
    } else {
      NatTextIsInteger(i);
    }
  }

  lemma NatTextIsInteger(n: nat)
    ensures var t := NatToString(n);
      t[0] != '-' && IsJsonInteger(t) && DigitsValue(t) == n && ParseJsonInteger(t) == Some(n)
  {
    var t := NatToString(n);
    assert IsDigit(t[0]);
    DigitsOfNat(n);
  }

  lemma NoCommaInInteger(i: int)
    ensures ',' !in IntToString(i)
  {
    var s := NatToString(if i < 0 then -i else i);
    assert forall k :: 0 <= k < |s| ==> IsDigit(s[k]);
  }

  // ---------------------------------------------------------------------------
  // the body of a quoted JavaScript string literal

  /** The two quotes a JavaScript string literal may be written with. */
  predicate IsQuote(q: char) { q == '"' || q == '\'' }

  /** The character an escape `\e` stands for, for the escapes this model reads. */
  function EscapeMeaning(e: char): Option<char>
  {
    if e == '\\' then Some('\\')
    else if e == '"' then Some('"')
    else if e == '\'' then Some('\'')
    else if e == 'n' then Some('\n')
    else if e == 'r' then Some('\r')
    else None
  }

  /**
   * The string denoted by the text between the quotes of a literal quoted with `q`, or
   * `None` when that text would end the literal early (an unescaped `q`), break the line,
   * end inside an escape, or use an escape outside `\\ \" \' \n \r`.
   */
  function DecodeLiteralBody(s: string, q: char): Option<string>
  {
    if |s| == 0 then Some("")
    else if s[0] == q || s[0] == '\n' || s[0] == '\r' then None
    else if s[0] == '\\' then
      if |s| < 2 then None
      else
        match EscapeMeaning(s[1])
        case None => None
        case Some(c) =>
          match DecodeLiteralBody(s[2..], q)
          case None => None
          case Some(rest) => Some([c] + rest)
    else
      match DecodeLiteralBody(s[1..], q)
      case None => None
      case Some(rest) => Some([s[0]] + rest)
  }

  /** Decodes a whole literal quoted with `q`. */
  function DecodeLiteral(lit: string, q: char): Option<string>
  {
    if |lit| >= 2 && lit[0] == q && lit[|lit| - 1] == q then DecodeLiteralBody(lit[1..|lit| - 1], q)
    else None
  }

  /** The body of a literal quoted with `q` denoting `s`: backslash, `q`, line feed and carriage return escaped. */
  function EncodeLiteralBody(s: string, q: char): string
  {
    if |s| == 0 then ""
    else
      var head :=
        if s[0] == '\\' then "\\\\"
        else if s[0] == q then ['\\', q]
        else if s[0] == '\n' then "\\n"
        else if s[0] == '\r' then "\\r"
        else [s[0]];
      head + EncodeLiteralBody(s[1..], q)
  }

  /** Encoding a string as a literal body and decoding it gives the string back. */
  lemma {:induction false} DecodeEncodeLiteral(s: string, q: char)
    requires IsQuote(q)
    ensures DecodeLiteralBody(EncodeLiteralBody(s, q), q) == Some(s)
  {
    if |s| > 0 {
      DecodeEncodeLiteral(s[1..], q);
      if s[0] == '\\' || s[0] == q || s[0] == '\n' || s[0] == '\r' {
        EscapedHead(s, q);
      } else {
        var rest := EncodeLiteralBody(s[1..], q);
        assert EncodeLiteralBody(s, q) == [s[0]] + rest;
        assert ([s[0]] + rest)[1..] == rest;
      }
      assert [s[0]] + s[1..] == s;
    }
  }

  /** A character that needs an escape is written as two characters that decode back to it. */
  lemma EscapedHead(s: string, q: char)
    requires IsQuote(q) && |s| > 0
    requires s[0] == '\\' || s[0] == q || s[0] == '\n' || s[0] == '\r'
    requires DecodeLiteralBody(EncodeLiteralBody(s[1..], q), q) == Some(s[1..])
    ensures DecodeLiteralBody(EncodeLiteralBody(s, q), q) == Some([s[0]] + s[1..])
  {
    var rest := EncodeLiteralBody(s[1..], q);
    var e := EncodeLiteralBody(s, q);
    var head := if s[0] == '\\' then "\\\\" else if s[0] == q then ['\\', q] else if s[0] == '\n' then "\\n" else "\\r";
    assert e == head + rest;
    assert e[0] == '\\' && e[2..] == rest;
    assert EscapeMeaning(e[1]) == Some(s[0]);
  }

  /** The whole literal `q + EncodeLiteralBody(s, q) + q` decodes to `s`. */
  lemma QuotedLiteralDecodes(s: string, q: char)
    requires IsQuote(q)
    ensures DecodeLiteral([q] + EncodeLiteralBody(s, q) + [q], q) == Some(s)
  {
    var lit := [q] + EncodeLiteralBody(s, q) + [q];
    assert lit[1..|lit| - 1] == EncodeLiteralBody(s, q);
    DecodeEncodeLiteral(s, q);
  }

  /** Text without `q`, backslashes or line breaks is its own literal body. */
  lemma {:induction false} DecodePlainLiteral(s: string, q: char)
    requires forall i :: 0 <= i < |s| ==> s[i] != q && s[i] != '\\' && s[i] != '\n' && s[i] != '\r'
    ensures DecodeLiteralBody(s, q) == Some(s)
  {
    if |s| > 0 {
      DecodePlainLiteral(s[1..], q);
      assert [s[0]] + s[1..] == s;
    }
  }

  /** A literal whose body is `a`, a bare `q` and then `b` does not decode. */
  lemma {:induction false} BareQuoteBreaksLiteral(a: string, b: string, q: char)
    requires forall i :: 0 <= i < |a| ==> a[i] != q && a[i] != '\\' && a[i] != '\n' && a[i] != '\r'
    ensures DecodeLiteralBody(a + [q] + b, q) == None
  {
    if |a| == 0 {
      assert (a + [q] + b)[0] == q;
    } else {
      BareQuoteBreaksLiteral(a[1..], b, q);
      assert (a + [q] + b)[1..] == a[1..] + [q] + b;
    }
  }

  /** `s.includes(sub)`. */
  predicate Contains(s: string, sub: string)
  {
    StartsWith(s, sub) || (|s| > 0 && Contains(s[1..], sub))
  }

  /** A string none of whose characters starts `sub` does not contain it. */
  lemma {:induction false} NoFirstCharNoContains(s: string, sub: string)
    requires |sub| > 0 && forall i :: 0 <= i < |s| ==> s[i] != sub[0]
    ensures !Contains(s, sub)
  {
    if |s| > 0 {
      NoFirstCharNoContains(s[1..], sub);
      if |sub| <= |s| {
        assert s[..|sub|][0] == s[0];
      }
    }
  }
}
