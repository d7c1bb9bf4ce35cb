/**
 * The helpers of the legacy PostgreSQL generator (src/pg.ts): the TypeScript type and
 * serializer chosen for a column's `udt_name`, and the initialiser read off a column
 * default. Its `camelcase` is the one of src/type.ts (`PgtsTypes.Camelcase`).
 */
module PgCodegen {
  import opened Wrappers
  import opened Strings
  import PgtsNaming
  import PgtsTypes

  // ---------------------------------------------------------------------------
  // type_maps and handle_udt_name

  /** `type_maps`, with `tz` as the key of the third entry. */
  function TypeMapsWith(tz: string): map<string, (string, string)>
  {
    map["date" := ("Date", "UTCDateSerializer"),
        "timestamp" := ("Date", "UTCDateSerializer"),
        tz := ("Date", "UTCDateSerializer"),
        "hstore" := ("Map<string, string>", "HstoreSerializer")]
  }

  /** `type_maps` as written: the third key is `timestampz`, which is not a PostgreSQL type. */
  function TypeMapsAsWritten(): map<string, (string, string)>
  {
    TypeMapsWith("timestampz")
  }

  /** `type_maps` with the third key spelled `timestamptz`. */
  function TypeMaps(): map<string, (string, string)>
  {
    TypeMapsWith("timestamptz")
  }

  /** `/^(int|float)\d+$/`. */
  predicate IsSizedNumber(t: string)
  {
    (StartsWith(t, "int") && |t| > 3 && AllDigits(t[3..])) ||
    (StartsWith(t, "float") && |t| > 5 && AllDigits(t[5..]))
  }

  /**
   * What `handle_udt_name` makes of a name without its array prefix: the TypeScript type
   * and the serializer. `Err` where `camelcase` reads `s[0]` of "".
   */
  function UdtElement(maps: map<string, (string, string)>, t: string): Result<(string, string), string>
  {
    if IsSizedNumber(t) then Ok(("number", "number"))
    else if t == "text" || t == "name" then Ok(("string", "string"))
    else if t == "bool" then Ok(("boolean", "boolean"))
    else if t == "void" then Ok(("void", "void"))
    else if t in maps then Ok(maps[t])
    else
      match PgtsTypes.Camelcase(t)
      case None => Err("TypeError")
      case Some(c) => Ok((c, c))
  }

  /** `handle_udt_name(s)` over a type table: a leading `_` appends `[]` to the type. */
  function HandleUdtNameWith(maps: map<string, (string, string)>, s: string): Result<(string, string), string>
  {
    var arr := |s| > 0 && s[0] == '_';
    match UdtElement(maps, if arr then s[1..] else s)
    case Err(e) => Err(e)
    case Ok(p) => Ok((p.0 + (if arr then "[]" else ""), p.1))
  }

  function HandleUdtNameAsWritten(s: string): Result<(string, string), string>
  {
    HandleUdtNameWith(TypeMapsAsWritten(), s)
  }

  function HandleUdtName(s: string): Result<(string, string), string>
  {
    HandleUdtNameWith(TypeMaps(), s)
  }

  /** A name that is not an array name is its own element. */
  lemma PlainName(maps: map<string, (string, string)>, t: string)
    requires |t| == 0 || t[0] != '_'
    ensures HandleUdtNameWith(maps, t) == UdtElement(maps, t)
  {
    if UdtElement(maps, t).Ok? {
      var p := UdtElement(maps, t).value;
      assert p.0 + "" == p.0;
    }
  }

  /**
   * A leading `_` makes an array of the rest: the type gains `[]`, the serializer is the
   * element's, and the name fails exactly when the element's does.
   */
  lemma ArrayOfElement(maps: map<string, (string, string)>, t: string)
    requires |t| == 0 || t[0] != '_'
    ensures HandleUdtNameWith(maps, "_" + t).Ok? <==> HandleUdtNameWith(maps, t).Ok?
    ensures HandleUdtNameWith(maps, t).Ok? ==>
      HandleUdtNameWith(maps, "_" + t).value ==
        (HandleUdtNameWith(maps, t).value.0 + "[]", HandleUdtNameWith(maps, t).value.1)
  {
    assert ("_" + t)[0] == '_' && ("_" + t)[1..] == t;
    PlainName(maps, t);
  }

  /** The names `int2`, `int4`, `float8`, … are numbers, whatever the type table holds. */
  lemma SizedNumbers(maps: map<string, (string, string)>, digits: string)
    requires |digits| > 0 && AllDigits(digits)
    ensures HandleUdtNameWith(maps, "int" + digits) == Ok(("number", "number"))
    ensures HandleUdtNameWith(maps, "float" + digits) == Ok(("number", "number"))
  {
    var i := "int" + digits;
    var f := "float" + digits;
    assert i[..3] == "int" && i[3..] == digits;
    assert f[..5] == "float" && f[5..] == digits;
    PlainName(maps, i);
    PlainName(maps, f);
  }

  /**
   * A one-word name that is none of the built-in ones and not in the table is taken for
   * a class of the generated code: type and serializer are the capitalised name.
   */
  lemma UnknownWord(maps: map<string, (string, string)>, w: string)
    requires PgtsTypes.IsAlnumWord(w) && !IsSizedNumber(w) && w !in maps
    requires w != "text" && w != "name" && w != "bool" && w != "void"
    ensures HandleUdtNameWith(maps, w) == Ok((PgtsNaming.Capitalized(w), PgtsNaming.Capitalized(w)))
  {
    PlainName(maps, w);
    PgtsTypes.CamelcaseOfWords([w]);
    assert Join([w], "_") == w;
    PgtsTypes.CapitalizedHead([w]);
    var c := [Upper(w[0])] + w[1..];
    assert PgtsNaming.ConcatCapitalized([w]) == c + "" == c;
    assert PgtsTypes.Camelcase(w) == Some(c);
    assert UdtElement(maps, w) == Ok((c, c));
  }

  /** `timestamptz` is missing from the table as written and comes out as a class name. */
  lemma TimestamptzAsWritten(s: string)
    requires s == "timestamptz"
    ensures HandleUdtNameAsWritten(s) == Ok(("Timestamptz", "Timestamptz"))
  {
    PgtsNaming.FirstCharDiffers(s, "int");
    PgtsNaming.FirstCharDiffers(s, "float");
    assert s !in TypeMapsAsWritten();
    UnknownWord(TypeMapsAsWritten(), s);
    assert [Upper(s[0])] + s[1..] == "Timestamptz";
  }

  /** With the key spelled `timestamptz`, it is a Date, and so is every array of it. */
  lemma TimestamptzIsDate(s: string)
    requires s == "timestamptz"
    ensures HandleUdtName(s) == Ok(("Date", "UTCDateSerializer"))
    ensures HandleUdtName("_" + s) == Ok(("Date[]", "UTCDateSerializer"))
  {
    PgtsNaming.FirstCharDiffers(s, "int");
    PgtsNaming.FirstCharDiffers(s, "float");
    assert !IsSizedNumber(s);
    assert s != "text" && s != "name" && s != "bool" && s != "void";
    assert s in TypeMaps() && TypeMaps()[s] == ("Date", "UTCDateSerializer");
    assert UdtElement(TypeMaps(), s) == Ok(("Date", "UTCDateSerializer"));
    PlainName(TypeMaps(), s);
    ArrayOfElement(TypeMaps(), s);
    assert "Date" + "[]" == "Date[]";
  }

  // ---------------------------------------------------------------------------
  // handle_default_value: the regular expressions it tries

  /** The end of the line holding position `i`: the first line terminator from `i` on, or the end. */
  function LineEnd(s: string, i: nat): (r: nat)
    requires i <= |s|
    ensures i <= r <= |s|
    ensures forall j :: i <= j < r ==> !PgtsNaming.IsLineTerminator(s[j])
    ensures r < |s| ==> PgtsNaming.IsLineTerminator(s[r])
    decreases |s| - i
  {
    if i == |s| || PgtsNaming.IsLineTerminator(s[i]) then i else LineEnd(s, i + 1)
  }

  /** The start of the line holding position `e`: just after the last line terminator before `e`, or 0. */
  function LineStart(s: string, e: nat): (r: nat)
    requires e <= |s|
    ensures r <= e
    ensures forall j :: r <= j < e ==> !PgtsNaming.IsLineTerminator(s[j])
    ensures r > 0 ==> PgtsNaming.IsLineTerminator(s[r - 1])
  {
    if e == 0 || PgtsNaming.IsLineTerminator(s[e - 1]) then e else LineStart(s, e - 1)
  }

  /** The last position in `[lo, hi]` at which `m` starts. */
  function LastMarker(s: string, m: string, lo: nat, hi: nat): (r: Option<nat>)
    requires lo <= hi <= |s|
    ensures r.Some? ==> lo <= r.value <= hi && StartsWith(s[r.value..], m)
    ensures r.Some? ==> forall q :: r.value < q <= hi ==> !StartsWith(s[q..], m)
    ensures r.None? <==> forall q :: lo <= q <= hi ==> !StartsWith(s[q..], m)
    decreases hi - lo
  {
    if StartsWith(s[hi..], m) then Some(hi)
    else if hi == lo then None
    else LastMarker(s, m, lo, hi - 1)
  }

  /** The first position in `[lo, hi]` at which `m` starts. */
  function FirstMarker(s: string, m: string, lo: nat, hi: nat): (r: Option<nat>)
    requires lo <= hi <= |s|
    ensures r.Some? ==> lo <= r.value <= hi && StartsWith(s[r.value..], m)
    ensures r.None? <==> forall q :: lo <= q <= hi ==> !StartsWith(s[q..], m)
    decreases hi - lo
  {
    if StartsWith(s[lo..], m) then Some(lo)
    else if lo == hi then None
    else FirstMarker(s, m, lo + 1, hi)
  }

  /**
   * `/'(.*)'::jsonb?/.exec(s)?.[1]`, trying opening quotes from position `p` on: the
   * first quote after which the line holds `'::json`, and the text up to the last such
   * marker on that line (`.*` is greedy and does not cross a line break).
   */
  function JsonCastCapture(s: string, p: nat): Option<string>
    requires p <= |s|
    decreases |s| - p
  {
    if p == |s| then None
    else
      var q := LastMarker(s, "'::json", p + 1, LineEnd(s, p + 1));
      if s[p] == '\'' && q.Some? then Some(s[p + 1..q.value])
      else JsonCastCapture(s, p + 1)
  }

  /** `/(.*)::text$/.exec(s)?.[1]`: the last line's text before a final `::text`. */
  function TextCastCapture(s: string): Option<string>
  {
    if EndsWith(s, "::text") then Some(s[LineStart(s, |s| - 6)..|s| - 6]) else None
  }

  /** `/'(.*)'::(.*)\.hstore/` finds a match whose opening quote is at `p` or later. */
  predicate HstoreCastFrom(s: string, p: nat)
    requires p <= |s|
    decreases |s| - p
  {
    p < |s| &&
    ((s[p] == '\'' &&
      var e := LineEnd(s, p + 1);
      var q := FirstMarker(s, "'::", p + 1, e);
      q.Some? && q.value + 3 <= e && Contains(s[q.value + 3..e], ".hstore"))
     || HstoreCastFrom(s, p + 1))
  }

  /** `handle_default_value(s)`. */
  function HandleDefaultValue(s: string): string
  {
    var m := if JsonCastCapture(s, 0).Some? then JsonCastCapture(s, 0) else TextCastCapture(s);
    if m.Some? then (if m.value == "''" then "\"\"" else m.value)
    else if Contains(s, "'{}'::text[]") then "[]"
    else if HstoreCastFrom(s, 0) then "new Map()"
    else "undefined! // " + s
  }

  // ---------------------------------------------------------------------------
  // handle_default_value: the shapes it recognises

  predicate NoQuote(s: string)
  {
    forall i :: 0 <= i < |s| ==> s[i] != '\''
  }

  predicate OneLine(s: string)
  {
    forall i :: 0 <= i < |s| ==> !PgtsNaming.IsLineTerminator(s[i])
  }

  /** Without `'::json` from `p` on there is no JSON cast to capture. */
  lemma {:induction false} NoJsonMarker(s: string, p: nat)
    requires p <= |s|
    requires forall q :: p <= q <= |s| ==> !StartsWith(s[q..], "'::json")
    ensures JsonCastCapture(s, p) == None
    decreases |s| - p
  {
    if p < |s| {
      NoJsonMarker(s, p + 1);
    }
  }

  /** Without a quote from `p` on there is no hstore cast. */
  lemma {:induction false} NoQuoteNoHstore(s: string, p: nat)
    requires p <= |s| && forall i :: p <= i < |s| ==> s[i] != '\''
    ensures !HstoreCastFrom(s, p)
    decreases |s| - p
  {
    if p < |s| {
      NoQuoteNoHstore(s, p + 1);
    }
  }

  lemma NoQuoteNoMarker(s: string, m: string)
    requires NoQuote(s) && |m| > 0 && m[0] == '\''
    ensures forall q :: 0 <= q <= |s| ==> !StartsWith(s[q..], m)
  {
    forall q | 0 <= q <= |s|
      ensures !StartsWith(s[q..], m)
    {
      if |m| <= |s[q..]| {
        assert s[q..][..|m|][0] == s[q];
      }
    }
  }

  /** A default without quotes that is not a `::text` cast (`now()`, `42`) is left as a comment. */
  lemma UnquotedDefault(s: string)
    requires NoQuote(s) && !EndsWith(s, "::text")
    ensures HandleDefaultValue(s) == "undefined! // " + s
  {
    NoQuoteNoMarker(s, "'::json");
    NoJsonMarker(s, 0);
    NoFirstCharNoContains(s, "'{}'::text[]");
    NoQuoteNoHstore(s, 0);
  }

  /** `'::json` does not start at `q` when its character number `i` is not there. */
  lemma NotJsonAt(s: string, q: nat, i: nat)
    requires q <= |s| && i < 7
    requires q + i < |s| ==> s[q + i] != "'::json"[i]
    ensures !StartsWith(s[q..], "'::json")
  {
    if q + 7 <= |s| {
      assert s[q..][..7][i] == s[q + i];
    }
  }

  lemma OneLineEnds(s: string, i: nat)
    requires OneLine(s) && i <= |s|
    ensures LineEnd(s, i) == |s|
  {
  }

  lemma OneLineStarts(s: string, e: nat)
    requires OneLine(s) && e <= |s|
    ensures LineStart(s, e) == 0
  {
  }

  /** `'t'::json` and `'t'::jsonb` on one line give the text `t` (and `""` for `''`). */
  lemma JsonDefault(t: string, b: bool)
    requires OneLine(t)
    ensures var s := "'" + t + "'::json" + (if b then "b" else "");
      HandleDefaultValue(s) == (if t == "''" then "\"\"" else t)
  {
    var s := "'" + t + "'::json" + (if b then "b" else "");
    var k := |t| + 1;
    assert OneLine(s);
    OneLineEnds(s, 1);
    assert s[k..][..7] == "'::json";
    forall q | k < q <= |s|
      ensures !StartsWith(s[q..], "'::json")
    {
      if q + 7 <= |s| {
        assert q == k + 1 && s[q] == ':';
        assert s[q..][..7][0] == ':';
      }
    }
    assert s[1..k] == t;
  }

  lemma QuotedTextNoJson(t: string)
    requires NoQuote(t) && !StartsWith(t, "::json")
    ensures JsonCastCapture("'" + t + "'::text", 0) == None
  {
    var s := "'" + t + "'::text";
    var k := |t| + 1;
    forall q | 0 <= q <= |s|
      ensures !StartsWith(s[q..], "'::json")
    {
      if q == 0 {
        if q + 7 <= |s| {
          var w := s[q..][..7];
          if |t| >= 6 {
            assert w[1..] == t[..6];
          } else {
            assert w[|t| + 1] == '\'';
          }
        }
      } else if q == k {
        assert s[k + 3] == 't';
        NotJsonAt(s, q, 3);
      } else if q < k {
        assert s[q] == t[q - 1];
        NotJsonAt(s, q, 0);
      } else {
        NotJsonAt(s, q, 6);
      }
    }
    NoJsonMarker(s, 0);
  }

  /** `'t'::text` gives the literal `'t'` as it is, and `""` for the empty text. */
  lemma QuotedTextDefault(t: string)
    requires NoQuote(t) && OneLine(t) && !StartsWith(t, "::json")
    ensures var s := "'" + t + "'::text";
      HandleDefaultValue(s) == (if t == "" then "\"\"" else "'" + t + "'")
  {
    var s := "'" + t + "'::text";
    QuotedTextNoJson(t);
    assert OneLine(s);
    OneLineStarts(s, |s| - 6);
    assert EndsWith(s, "::text");
    assert s[..|s| - 6] == "'" + t + "'";
  }

  lemma EmptyTextArrayNoJson(s: string)
    requires s == "'{}'::text[]"
    ensures JsonCastCapture(s, 0) == None
  {
    forall q | 0 <= q <= |s|
      ensures !StartsWith(s[q..], "'::json")
    {
      if q == 0 {
        NotJsonAt(s, q, 1);
      } else if q == 1 || q == 2 {
        assert s[1] == '{' && s[2] == '}';
        NotJsonAt(s, q, 0);
      } else if q == 3 {
        NotJsonAt(s, q, 3);
      } else if q == 4 || q == 5 {
        assert s[4] == ':' && s[5] == ':';
        NotJsonAt(s, q, 0);
      } else {
        NotJsonAt(s, q, 6);
      }
    }
    NoJsonMarker(s, 0);
  }

  /** `'{}'::text[]`, the empty text array, gives `[]`. */
  lemma EmptyTextArrayDefault(s: string)
    requires s == "'{}'::text[]"
    ensures HandleDefaultValue(s) == "[]"
  {
    EmptyTextArrayNoJson(s);
    assert !EndsWith(s, "::text") by {
      assert s[|s| - 1] == ']';
    }
    assert Contains(s, "'{}'::text[]") by {
      assert StartsWith(s, "'{}'::text[]");
    }
  }

  lemma HstoreNoJson(schema: string, s: string)
    requires NoQuote(schema) && !StartsWith(schema, "json")
    requires s == "''::" + schema + ".hstore"
    ensures JsonCastCapture(s, 0) == None
  {
    var n := |schema|;
    forall q | 0 <= q <= |s|
      ensures !StartsWith(s[q..], "'::json")
    {
      if q + 7 <= |s| {
        var w := s[q..][..7];
        if q == 0 {
          assert w[1] == '\'';
        } else if q == 1 {
          if n >= 4 {
            assert forall i :: 0 <= i < 4 ==> w[3 + i] == s[4 + i] == schema[i];
            assert w[3..] == schema[..4];
          } else {
            assert w[3 + n] == '.';
          }
        } else if q < 4 {
          assert w[0] == s[q] == ':';
        } else if q < 4 + n {
          assert w[0] == s[q] == schema[q - 4];
        } else {
          assert w[0] == s[q] == ".hstore"[q - 4 - n];
        }
      }
    }
    NoJsonMarker(s, 0);
  }

  lemma HstoreNoTextArray(schema: string, s: string)
    requires NoQuote(schema)
    requires s == "''::" + schema + ".hstore"
    ensures !Contains(s, "'{}'::text[]")
  {
    assert !StartsWith(s, "'{}'::text[]") by { assert s[1] == '\''; }
    var s1 := s[1..];
    assert !StartsWith(s1, "'{}'::text[]") by { assert s1[1] == ':'; }
    var s2 := s1[1..];
    assert s2 == "::" + schema + ".hstore";
    assert forall i :: 0 <= i < |s2| ==> s2[i] != '\'' by {
      forall i | 0 <= i < |s2|
        ensures s2[i] != '\''
      {
        if 2 <= i < 2 + |schema| {
          assert s2[i] == schema[i - 2];
        } else if i >= 2 + |schema| {
          assert s2[i] == ".hstore"[i - 2 - |schema|];
        }
      }
    }
    NoFirstCharNoContains(s2, "'{}'::text[]");
  }

  lemma HstoreCastFound(schema: string, s: string)
    requires OneLine(schema)
    requires s == "''::" + schema + ".hstore"
    ensures HstoreCastFrom(s, 0)
  {
    assert OneLine(s) by {
      forall i | 0 <= i < |s|
        ensures !PgtsNaming.IsLineTerminator(s[i])
      {
        if 4 <= i < 4 + |schema| {
          assert s[i] == schema[i - 4];
        }
      }
    }
    OneLineEnds(s, 1);
    assert s[1..][..3] == "'::";
    assert s[4..|s|] == schema + ".hstore";
    PgtsNaming.ContainsSuffix(schema, ".hstore");
  }

  /**
   * The empty hstore cast to a schema's type, `''::public.hstore`, gives an empty Map
   * (unless the schema name begins with `json`, which the JSON pattern catches first).
   */
  lemma HstoreDefault(schema: string)
    requires NoQuote(schema) && OneLine(schema) && !StartsWith(schema, "json")
    ensures HandleDefaultValue("''::" + schema + ".hstore") == "new Map()"
  {
    var s := "''::" + schema + ".hstore";
    HstoreNoJson(schema, s);
    assert s[|s| - 1] == 'e';
    HstoreNoTextArray(schema, s);
    HstoreCastFound(schema, s);
  }
}
