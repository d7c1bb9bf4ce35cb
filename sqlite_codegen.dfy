/**
 * The helpers of the SQLite generator (src/sqlite.ts): the class name of a table, the
 * TypeScript type of a column's declared type, and the union of string literals written
 * for a column whose values come from a small referenced table.
 */
module SqliteCodegen {
  import opened Wrappers
  import opened Strings
  import PgtsNaming
  import PgtsTypes
  import PgCodegen

  // ---------------------------------------------------------------------------
  // camelcase

  /** `camelcase(s)`: every `.` after the first character dropped, then `_x` becomes `X`. */
  function Camelcase(s: string): (r: Option<string>)
    ensures r.Some? <==> |s| > 0
    ensures r.Some? ==> |r.value| > 0 && r.value[0] == Upper(s[0])
  {
    if |s| == 0 then None
    else Some([Upper(s[0])] + PgtsTypes.UpperAfterUnderscores(ReplaceChar(s[1..], '.', "")))
  }

  predicate NoDot(s: string)
  {
    forall i :: 0 <= i < |s| ==> s[i] != '.'
  }

  lemma {:induction false} ReplaceCharAppend(a: string, b: string, c: char, r: string)
    ensures ReplaceChar(a + b, c, r) == ReplaceChar(a, c, r) + ReplaceChar(b, c, r)
  {
    if |a| == 0 {
      assert a + b == b;
    } else {
      ReplaceCharAppend(a[1..], b, c, r);
      var head := if a[0] == c then r else [a[0]];
      var x, y := ReplaceChar(a[1..], c, r), ReplaceChar(b, c, r);
      assert (a + b)[0] == a[0] && (a + b)[1..] == a[1..] + b;
      assert ReplaceChar(a + b, c, r) == head + (x + y);
      assert head + (x + y) == (head + x) + y;
    }
  }

  lemma {:induction false} DropDotsNoDot(s: string)
    ensures NoDot(ReplaceChar(s, '.', ""))
  {
    if |s| > 0 {
      DropDotsNoDot(s[1..]);
    }
  }

  lemma {:induction false} DropDotsOfNoDot(s: string)
    requires NoDot(s)
    ensures ReplaceChar(s, '.', "") == s
  {
    if |s| > 0 {
      DropDotsOfNoDot(s[1..]);
      assert [s[0]] + s[1..] == s;
    }
  }

  lemma {:induction false} UpperAfterKeepsNoDot(t: string)
    requires NoDot(t)
    ensures NoDot(PgtsTypes.UpperAfterUnderscores(t))
  {
    if |t| >= 2 && t[0] == '_' && PgtsTypes.IsWordChar(t[1]) {
      UpperAfterKeepsNoDot(t[2..]);
    } else if |t| > 0 {
      UpperAfterKeepsNoDot(t[1..]);
    }
  }

  /** No `.` is left after the first character of the class name. */
  lemma CamelcaseHasNoDot(s: string)
    requires |s| > 0
    ensures NoDot(Camelcase(s).value[1..])
  {
    DropDotsNoDot(s[1..]);
    UpperAfterKeepsNoDot(ReplaceChar(s[1..], '.', ""));
    assert Camelcase(s).value[1..] == PgtsTypes.UpperAfterUnderscores(ReplaceChar(s[1..], '.', ""));
  }

  /** A dot after the first character is ignored: `main.users` is named as `mainusers`. */
  lemma CamelcaseIgnoresDot(a: string, b: string)
    requires |a| > 0
    ensures Camelcase(a + "." + b) == Camelcase(a + b)
  {
    var a1 := a[1..];
    assert (a + "." + b)[0] == a[0] && (a + b)[0] == a[0];
    assert (a + "." + b)[1..] == (a1 + ".") + b;
    assert (a + b)[1..] == a1 + b;
    ReplaceCharAppend(a1 + ".", b, '.', "");
    ReplaceCharAppend(a1, ".", '.', "");
    ReplaceCharAppend(a1, b, '.', "");
    assert ReplaceChar(".", '.', "") == "";
    assert ReplaceChar(a1 + ".", '.', "") == ReplaceChar(a1, '.', "");
  }

  /** On names without dots this is the `camelcase` of the PostgreSQL generators. */
  lemma CamelcaseWithoutDots(s: string)
    requires |s| > 0 && NoDot(s)
    ensures Camelcase(s) == PgtsTypes.Camelcase(s)
  {
    DropDotsOfNoDot(s[1..]);
  }

  // ---------------------------------------------------------------------------
  // handle_udt_name

  /** `/^(int|float)\d*$/`: the digits are optional here. */
  predicate IsNumberAffinity(t: string)
  {
    (StartsWith(t, "int") && AllDigits(t[3..])) || (StartsWith(t, "float") && AllDigits(t[5..]))
  }

  /** The type and serializer of a declared type without its array prefix: unknown types are strings. */
  function UdtElement(maps: map<string, (string, string)>, t: string): (r: (string, string))
    ensures r.1 in {"number", "string", "boolean", "void"} || (t in maps && r == maps[t])
  {
    if IsNumberAffinity(t) then ("number", "number")
    else if t == "text" || t == "name" then ("string", "string")
    else if t == "bool" then ("boolean", "boolean")
    else if t == "void" then ("void", "void")
    else if t in maps then maps[t]
    else ("string", "string")
  }

  /** `handle_udt_name(s)` over a type table; an empty declared type is SQLite's default `text`. */
  function HandleUdtNameWith(maps: map<string, (string, string)>, s: string): (string, string)
  {
    var s1 := if s == "" then "text" else s;
    var arr := s1[0] == '_';
    var p := UdtElement(maps, if arr then s1[1..] else s1);
    (p.0 + (if arr then "[]" else ""), p.1)
  }

  function HandleUdtNameAsWritten(s: string): (string, string)
  {
    HandleUdtNameWith(PgCodegen.TypeMapsAsWritten(), s)
  }

  function HandleUdtName(s: string): (string, string)
  {
    HandleUdtNameWith(PgCodegen.TypeMaps(), s)
  }

  /** A column declared without a type is a string. */
  lemma UntypedIsString(maps: map<string, (string, string)>)
    ensures HandleUdtNameWith(maps, "") == ("string", "string")
  {
    TextIsNotNumber();
    assert "text"[0] == 't';
    assert "string" + "" == "string";
  }

  lemma TextIsNotNumber()
    ensures !IsNumberAffinity("text")
  {
    PgtsNaming.FirstCharDiffers("text", "int");
    PgtsNaming.FirstCharDiffers("text", "float");
  }

  /** A name that is not an array name is its own element. */
  lemma PlainName(maps: map<string, (string, string)>, t: string)
    requires |t| > 0 && t[0] != '_'
    ensures HandleUdtNameWith(maps, t) == UdtElement(maps, t)
  {
    var p := UdtElement(maps, t);
    assert p.0 + "" == p.0;
  }

  /** `int`, `int8`, `float`, `float64`, … are numbers, whatever the type table holds. */
  lemma NumberAffinities(maps: map<string, (string, string)>, digits: string)
    requires AllDigits(digits)
    ensures HandleUdtNameWith(maps, "int" + digits) == ("number", "number")
    ensures HandleUdtNameWith(maps, "float" + digits) == ("number", "number")
  {
    var i := "int" + digits;
    var f := "float" + digits;
    assert i[..3] == "int" && i[3..] == digits;
    assert f[..5] == "float" && f[5..] == digits;
    PlainName(maps, i);
    PlainName(maps, f);
  }

  /** A leading `_` makes an array of the rest: the type gains `[]`, the serializer is the element's. */
  lemma ArrayOfElement(maps: map<string, (string, string)>, t: string)
    requires |t| > 0 && t[0] != '_'
    ensures HandleUdtNameWith(maps, "_" + t) ==
      (HandleUdtNameWith(maps, t).0 + "[]", HandleUdtNameWith(maps, t).1)
  {
    assert ("_" + t)[0] == '_' && ("_" + t)[1..] == t;
    PlainName(maps, t);
  }

  /** `timestamptz` is missing from the table as written and is typed as a string. */
  lemma TimestamptzAsWritten(s: string)
    requires s == "timestamptz"
    ensures HandleUdtNameAsWritten(s) == ("string", "string")
    ensures HandleUdtName(s) == ("Date", "UTCDateSerializer")
  {
    PgtsNaming.FirstCharDiffers(s, "int");
    PgtsNaming.FirstCharDiffers(s, "float");
    assert s !in PgCodegen.TypeMapsAsWritten();
    assert s in PgCodegen.TypeMaps();
    PlainName(PgCodegen.TypeMapsAsWritten(), s);
    PlainName(PgCodegen.TypeMaps(), s);
  }

  // ---------------------------------------------------------------------------
  // SQLite's numeric affinities

  /**
   * Whether SQLite gives a declared type integer or real affinity (section 3.1,
   * "Determination Of Column Affinity", of SQLite's datatype documentation): it contains
   * `int`; or it holds none of `char`, `clob`, `text` and `blob` and contains `real`,
   * `floa` or `doub`. The caller has lower-cased the type.
   */
  predicate NumericAffinity(t: string)
  {
    Contains(t, "int") ||
    (!Contains(t, "char") && !Contains(t, "clob") && !Contains(t, "text") && !Contains(t, "blob") &&
     (Contains(t, "real") || Contains(t, "floa") || Contains(t, "doub")))
  }

  /** `handle_udt_name` with SQLite's integer and real affinities also typed as numbers. */
  function HandleUdtNameByAffinity(s: string): (string, string)
  {
    var s1 := if s == "" then "text" else s;
    var arr := s1[0] == '_';
    var t := if arr then s1[1..] else s1;
    if NumericAffinity(t) then ("number" + (if arr then "[]" else ""), "number")
    else HandleUdtName(s)
  }

  /** As written, a column declared `INTEGER` (lower-cased by the caller) is a string. */
  lemma IntegerIsString(s: string)
    requires s == "integer"
    ensures HandleUdtNameAsWritten(s) == ("string", "string")
    ensures HandleUdtName(s) == ("string", "string")
  {
    assert !AllDigits(s[3..]) by { assert s[3..][0] == 'e'; }
    PgtsNaming.FirstCharDiffers(s, "float");
    assert s !in PgCodegen.TypeMapsAsWritten();
    assert s !in PgCodegen.TypeMaps();
    PlainName(PgCodegen.TypeMapsAsWritten(), s);
    PlainName(PgCodegen.TypeMaps(), s);
  }

  /** With the affinity rules, `integer` and `real` columns are numbers. */
  lemma IntegerIsNumber(s: string)
    requires s == "integer" || s == "real"
    ensures HandleUdtNameByAffinity(s) == ("number", "number")
  {
    if s == "integer" {
      assert StartsWith(s, "int");
    } else {
      assert StartsWith(s, "real");
      NoFirstCharNoContains(s, "int");
      NoFirstCharNoContains(s, "char");
      NoFirstCharNoContains(s, "clob");
      NoFirstCharNoContains(s, "text");
      NoFirstCharNoContains(s, "blob");
    }
    assert "number" + "" == "number";
  }

  /** Every type the written pattern or table makes a number stays the same number. */
  lemma ByAffinityKeepsNumbers(s: string)
    requires HandleUdtName(s).1 == "number"
    ensures HandleUdtNameByAffinity(s) == HandleUdtName(s)
  {
  }

  // ---------------------------------------------------------------------------
  // the enum literal of get_values

  /** The escaping as written: `\r`, `\n` and `"` are escaped, in that order; `\` is not. */
  function EnumEscapeAsWritten(v: string): string
  {
    ReplaceChar(ReplaceChar(ReplaceChar(v, '\r', "\\r"), '\n', "\\n"), '"', "\\\"")
  }

  function QuoteValueAsWritten(v: string): string
  {
    "\"" + EnumEscapeAsWritten(v) + "\""
  }

  /** A TypeScript string literal denoting `v`. */
  function QuoteValue(v: string): string
  {
    "\"" + EncodeLiteralBody(v, '"') + "\""
  }

  /** The quoted values, or `None` where a value is null and `replace` throws. */
  function QuotedValues(quote: string -> string, vs: seq<Option<string>>): (r: Option<seq<string>>)
    ensures r.Some? <==> forall i :: 0 <= i < |vs| ==> vs[i].Some?
    ensures r.Some? ==> |r.value| == |vs| && forall i :: 0 <= i < |vs| ==> r.value[i] == quote(vs[i].value)
  {
    if |vs| == 0 then Some([])
    else
      match QuotedValues(quote, vs[1..])
      case None => None
      case Some(tail) => if vs[0].None? then None else Some([quote(vs[0].value)] + tail)
  }

  /**
   * The type written for a column whose distinct values are `vs`: `Ok(None)` (null) for
   * 50 values or more, the union of their literals otherwise, `Err` if one is null.
   */
  function EnumUnionWith(quote: string -> string, vs: seq<Option<string>>): (r: Result<Option<string>, string>)
    ensures |vs| >= 50 ==> r == Ok(None)
    ensures |vs| < 50 ==> (r.Err? <==> exists i :: 0 <= i < |vs| && vs[i].None?)
    ensures r.Ok? && r.value.Some? ==> |vs| < 50
  {
    if |vs| >= 50 then Ok(None)
    else
      match QuotedValues(quote, vs)
      case None => Err("TypeError")
      case Some(lits) => Ok(Some(Join(lits, " | ")))
  }

  function EnumUnionAsWritten(vs: seq<Option<string>>): Result<Option<string>, string>
  {
    EnumUnionWith(QuoteValueAsWritten, vs)
  }

  function EnumUnion(vs: seq<Option<string>>): Result<Option<string>, string>
  {
    EnumUnionWith(QuoteValue, vs)
  }

  /**
   * Reads a TypeScript string literal after its opening `"`: the escapes `\\ \" \' \n \r`,
   * no bare line break, and the first bare `"` ends it. Gives the text and what follows.
   */
  function ReadLiteral(s: string): (r: Option<(string, string)>)
    ensures r.Some? ==> |r.value.1| < |s|
  {
    if |s| == 0 || s[0] == '\n' || s[0] == '\r' then None
    else if s[0] == '"' then Some(("", s[1..]))
    else if s[0] == '\\' then
      if |s| < 2 then None
      else
        match EscapeMeaning(s[1])
        case None => None
        case Some(c) =>
          match ReadLiteral(s[2..])
          case None => None
          case Some(p) => Some(([c] + p.0, p.1))
    else
      match ReadLiteral(s[1..])
      case None => None
      case Some(p) => Some(([s[0]] + p.0, p.1))
  }

  /** Reads `"a" | "b" | …` filling the whole text. */
  function ParseUnion(s: string): Option<seq<string>>
    decreases |s|
  {
    if |s| == 0 || s[0] != '"' then None
    else
      match ReadLiteral(s[1..])
      case None => None
      case Some(p) =>
        if p.1 == "" then Some([p.0])
        else if StartsWith(p.1, " | ") then
          match ParseUnion(p.1[3..])
          case None => None
          case Some(rest) => Some([p.0] + rest)
        else None
  }

  lemma {:induction false} ReadEncoded(v: string, rest: string)
    ensures ReadLiteral(EncodeLiteralBody(v, '"') + "\"" + rest) == Some((v, rest))
  {
    if |v| == 0 {
      assert EncodeLiteralBody(v, '"') + "\"" + rest == "\"" + rest;
    } else {
      ReadEncoded(v[1..], rest);
      if v[0] == '\\' || v[0] == '"' || v[0] == '\n' || v[0] == '\r' {
        ReadEscapedHead(v, rest);
      } else {
        var tail := EncodeLiteralBody(v[1..], '"') + "\"" + rest;
        assert EncodeLiteralBody(v, '"') + "\"" + rest == [v[0]] + tail;
        assert ([v[0]] + tail)[1..] == tail;
      }
      assert [v[0]] + v[1..] == v;
    }
  }

  /** A backslash and a known escape letter read as the character the letter stands for. */
  lemma ReadEscapeStep(x: char, tail: string)
    requires EscapeMeaning(x).Some?
    ensures ReadLiteral(['\\', x] + tail) ==
      match ReadLiteral(tail)
      case None => None
      case Some(p) => Some(([EscapeMeaning(x).value] + p.0, p.1))
  {
    assert (['\\', x] + tail)[2..] == tail;
  }

  lemma ReadEscapedHead(v: string, rest: string)
    requires |v| > 0 && (v[0] == '\\' || v[0] == '"' || v[0] == '\n' || v[0] == '\r')
    requires ReadLiteral(EncodeLiteralBody(v[1..], '"') + "\"" + rest) == Some((v[1..], rest))
    ensures ReadLiteral(EncodeLiteralBody(v, '"') + "\"" + rest) == Some(([v[0]] + v[1..], rest))
  {
    var tail := EncodeLiteralBody(v[1..], '"') + "\"" + rest;
    var x := if v[0] == '\\' then '\\' else if v[0] == '"' then '"' else if v[0] == '\n' then 'n' else 'r';
    assert EncodeLiteralBody(v, '"') == ['\\', x] + EncodeLiteralBody(v[1..], '"');
    assert EncodeLiteralBody(v, '"') + "\"" + rest == ['\\', x] + tail;
    ReadEscapeStep(x, tail);
  }

  function Values(vs: seq<string>): seq<Option<string>>
  {
    seq(|vs|, i requires 0 <= i < |vs| => Some(vs[i]))
  }

  lemma {:induction false} JoinQuotedParses(vs: seq<string>)
    requires |vs| >= 1
    ensures ParseUnion(Join(seq(|vs|, i requires 0 <= i < |vs| => QuoteValue(vs[i])), " | ")) == Some(vs)
  {
    var lits := seq(|vs|, i requires 0 <= i < |vs| => QuoteValue(vs[i]));
    var u := Join(lits, " | ");
    var body := EncodeLiteralBody(vs[0], '"');
    if |vs| == 1 {
      assert u == "\"" + body + "\"" + "";
      assert u[1..] == body + "\"" + "";
      ReadEncoded(vs[0], "");
      assert [vs[0]] == vs;
    } else {
      var rest := Join(lits[1..], " | ");
      assert u == "\"" + body + "\"" + (" | " + rest);
      assert u[1..] == body + "\"" + (" | " + rest);
      ReadEncoded(vs[0], " | " + rest);
      assert (" | " + rest)[3..] == rest;
      assert lits[1..] == seq(|vs[1..]|, i requires 0 <= i < |vs[1..]| => QuoteValue(vs[1..][i]));
      JoinQuotedParses(vs[1..]);
      assert [vs[0]] + vs[1..] == vs;
    }
  }

  /** Each value's literal denotes the value, and the whole union reads back as the values. */
  lemma EnumUnionParses(vs: seq<string>)
    requires 1 <= |vs| < 50
    ensures EnumUnion(Values(vs)).Ok? && EnumUnion(Values(vs)).value.Some?
    ensures ParseUnion(EnumUnion(Values(vs)).value.value) == Some(vs)
  {
    var lits := QuotedValues(QuoteValue, Values(vs)).value;
    assert lits == seq(|vs|, i requires 0 <= i < |vs| => QuoteValue(vs[i]));
    JoinQuotedParses(vs);
  }

  lemma {:induction false} PlainEnumEscape(v: string)
    requires forall i :: 0 <= i < |v| ==> v[i] != '\\'
    ensures EnumEscapeAsWritten(v) == EncodeLiteralBody(v, '"')
  {
    if |v| > 0 {
      PlainEnumEscape(v[1..]);
      var h := [v[0]];
      assert v == h + v[1..];
      ReplaceCharAppend(h, v[1..], '\r', "\\r");
      var a := ReplaceChar(h, '\r', "\\r");
      var b := ReplaceChar(v[1..], '\r', "\\r");
      ReplaceCharAppend(a, b, '\n', "\\n");
      var c := ReplaceChar(a, '\n', "\\n");
      var d := ReplaceChar(b, '\n', "\\n");
      ReplaceCharAppend(c, d, '"', "\\\"");
      assert ReplaceChar(c, '"', "\\\"") == EncodeLiteralBody(h, '"');
      assert EncodeLiteralBody(v, '"') == EncodeLiteralBody(h, '"') + EncodeLiteralBody(v[1..], '"');
    }
  }

  /** As written, values without a backslash are quoted correctly. */
  lemma EnumUnionAsWrittenPlain(vs: seq<Option<string>>)
    requires forall i, j :: 0 <= i < |vs| && vs[i].Some? && 0 <= j < |vs[i].value| ==> vs[i].value[j] != '\\'
    ensures EnumUnionAsWritten(vs) == EnumUnion(vs)
  {
    forall i | 0 <= i < |vs| && vs[i].Some?
      ensures QuoteValueAsWritten(vs[i].value) == QuoteValue(vs[i].value)
    {
      PlainEnumEscape(vs[i].value);
    }
    if |vs| < 50 && forall i :: 0 <= i < |vs| ==> vs[i].Some? {
      var x := QuotedValues(QuoteValueAsWritten, vs).value;
      var y := QuotedValues(QuoteValue, vs).value;
      assert |x| == |y| && forall i :: 0 <= i < |x| ==> x[i] == y[i];
      assert x == y;
    }
  }

  /** As written, the value `a\` is written `"a\"`, a literal that never ends. */
  lemma EnumUnionTrailingBackslash()
    ensures EnumUnionAsWritten([Some("a\\")]) == Ok(Some("\"a\\\""))
    ensures ParseUnion("\"a\\\"") == None
  {
    assert ReplaceChar("a\\", '\r', "\\r") == "a\\";
    assert ReplaceChar("a\\", '\n', "\\n") == "a\\";
    assert ReplaceChar("a\\", '"', "\\\"") == "a\\";
    assert QuoteValueAsWritten("a\\") == "\"a\\\"";
    var q := QuotedValues(QuoteValueAsWritten, [Some("a\\")]).value;
    assert |q| == 1 && q[0] == "\"a\\\"";
    assert q == ["\"a\\\""];
    var lit := "\"a\\\"";
    assert lit[1..] == "a\\\"";
    assert ReadLiteral("\\\"") == None by {
      assert ("\\\"")[2..] == "";
    }
    assert ReadLiteral("a\\\"") == None by {
      assert ("a\\\"")[1..] == "\\\"";
    }
  }
}
