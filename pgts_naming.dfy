/**
 * The naming helpers of the pgts generator (src/pgts.ts): `CamelCase`, the qualifier
 * stripping done before a type is classified, the first-match `match` combinator, the
 * TypeScript type and parser chosen for a PostgreSQL type, and the field initialiser
 * derived from a column's default.
 */
module PgtsNaming {
  import opened Wrappers
  import opened Strings

  // ---------------------------------------------------------------------------
  // CamelCase: s.replace(/(?:^|_)(.)/g, m => m.toUpperCase())

  /** The characters `.` does not match in a JavaScript regular expression. */
  predicate IsLineTerminator(c: char)
  {
    c == '\n' || c == '\r' || c == '\U{2028}' || c == '\U{2029}'
  }

  /** The global scan of `/(?:^|_)(.)/`, where `atStart` says whether `^` still holds. */
  function CamelFrom(s: string, atStart: bool): string
  {
    if |s| == 0 then ""
    else if atStart && !IsLineTerminator(s[0]) then [Upper(s[0])] + CamelFrom(s[1..], false)
    else if s[0] == '_' && |s| >= 2 && !IsLineTerminator(s[1]) then [Upper(s[1])] + CamelFrom(s[2..], false)
    else [s[0]] + CamelFrom(s[1..], false)
  }

  function CamelCase(s: string): string
  {
    CamelFrom(s, true)
  }

  function Capitalized(w: string): string
  {
    if |w| == 0 then "" else [Upper(w[0])] + w[1..]
  }

  function ConcatCapitalized(ws: seq<string>): string
  {
    if |ws| == 0 then "" else Capitalized(ws[0]) + ConcatCapitalized(ws[1..])
  }

  /** A word of a snake_case name: non-empty, without `_` or line breaks. */
  predicate IsWord(w: string)
  {
    |w| > 0 && forall i :: 0 <= i < |w| ==> w[i] != '_' && !IsLineTerminator(w[i])
  }

  lemma {:induction false} CamelFromPlain(w: string, rest: string)
    requires forall i :: 0 <= i < |w| ==> w[i] != '_'
    ensures CamelFrom(w + rest, false) == w + CamelFrom(rest, false)
  {
    if |w| > 0 {
      CamelFromPlain(w[1..], rest);
      var s := w + rest;
      assert s[0] == w[0] && s[0] != '_';
      assert s[1..] == w[1..] + rest;
      assert CamelFrom(s, false) == [w[0]] + CamelFrom(s[1..], false);
      assert [w[0]] + w[1..] == w;
    } else {
      assert w + rest == rest;
    }
  }

  lemma {:induction false} CamelFromUnderscored(ws: seq<string>)
    requires |ws| >= 1 && forall i :: 0 <= i < |ws| ==> IsWord(ws[i])
    ensures CamelFrom("_" + Join(ws, "_"), false) == ConcatCapitalized(ws)
  {
    var w := ws[0];
    var tail := if |ws| == 1 then "" else "_" + Join(ws[1..], "_");
    JoinHead(ws);
    var s := "_" + (w + tail);
    assert s[0] == '_' && s[1] == w[0] && !IsLineTerminator(w[0]);
    assert s[2..] == w[1..] + tail;
    assert CamelFrom(s, false) == [Upper(w[0])] + CamelFrom(w[1..] + tail, false);
    CamelFromPlain(w[1..], tail);
    if |ws| > 1 {
      CamelFromUnderscored(ws[1..]);
    } else {
      assert w[1..] + tail == w[1..];
    }
  }

  lemma JoinHead(ws: seq<string>)
    requires |ws| >= 1
    ensures Join(ws, "_") == ws[0] + (if |ws| == 1 then "" else "_" + Join(ws[1..], "_"))
  {
    if |ws| == 1 {
      assert ws[0] + "" == ws[0];
    }
  }

  /** CamelCase of a snake_case name capitalises each word and drops the underscores. */
  lemma {:induction false} CamelCaseOfWords(ws: seq<string>)
    requires |ws| >= 1 && forall i :: 0 <= i < |ws| ==> IsWord(ws[i])
    ensures CamelCase(Join(ws, "_")) == ConcatCapitalized(ws)
  {
    var w := ws[0];
    assert IsWord(w);
    var tail := if |ws| == 1 then "" else "_" + Join(ws[1..], "_");
    JoinHead(ws);
    var s := w + tail;
    assert s[0] == w[0] && !IsLineTerminator(w[0]);
    assert s[1..] == w[1..] + tail;
    assert CamelFrom(s, true) == [Upper(w[0])] + CamelFrom(w[1..] + tail, false);
    CamelFromPlain(w[1..], tail);
    assert CamelFrom(w[1..] + tail, false) == w[1..] + CamelFrom(tail, false);
    assert ConcatCapitalized(ws) == [Upper(w[0])] + w[1..] + ConcatCapitalized(ws[1..]);
    if |ws| > 1 {
      CamelFromUnderscored(ws[1..]);
    } else {
      assert CamelFrom(tail, false) == "";
    }
  }

  // ---------------------------------------------------------------------------
  // type.replace(/[^.]+\.|\[\]/g, "")

  /** The length of the run of characters other than `.` at the start of `s`. */
  function NonDotRun(s: string): (n: nat)
    ensures n <= |s| && (n < |s| ==> s[n] == '.')
    ensures forall i :: 0 <= i < n ==> s[i] != '.'
  {
    if |s| == 0 || s[0] == '.' then 0 else 1 + NonDotRun(s[1..])
  }

  /** Removes every `schema.` qualifier and every `[]`, scanning left to right. */
  function StripQualifiers(s: string): string
  {
    if |s| == 0 then ""
    else
      var n := NonDotRun(s);
      if 0 < n < |s| then StripQualifiers(s[n + 1..])
      else if |s| >= 2 && s[0] == '[' && s[1] == ']' then StripQualifiers(s[2..])
      else [s[0]] + StripQualifiers(s[1..])
  }

  /** A bare type name: no dot and no brackets. */
  predicate IsBareName(s: string)
  {
    forall i :: 0 <= i < |s| ==> s[i] != '.' && s[i] != '[' && s[i] != ']'
  }

  lemma {:induction false} StripBareName(name: string, suffix: string)
    requires IsBareName(name) && (suffix == "" || suffix == "[]")
    ensures StripQualifiers(name + suffix) == name
  {
    if |name| == 0 {
      assert name + suffix == suffix;
      if suffix == "[]" {
        assert NonDotRun(suffix) == 2;
        assert suffix[2..] == "";
      }
    } else {
      assert NonDotRun(name + suffix) == |name + suffix|;
      StripBareName(name[1..], suffix);
      assert (name + suffix)[1..] == name[1..] + suffix;
      assert [name[0]] + name[1..] == name;
    }
  }

  /** `schema.name` and `schema.name[]` both come down to `name`. */
  lemma StripQualifiedName(schema: string, name: string, suffix: string)
    requires |schema| > 0 && forall i :: 0 <= i < |schema| ==> schema[i] != '.'
    requires IsBareName(name) && (suffix == "" || suffix == "[]")
    ensures StripQualifiers(schema + "." + name + suffix) == name
  {
    var s := schema + "." + name + suffix;
    assert s[|schema|] == '.';
    assert forall i :: 0 <= i < |schema| ==> s[i] == schema[i];
    assert NonDotRun(s) == |schema| by {
      NonDotRunPrefix(schema, "." + name + suffix);
      assert s == schema + ("." + name + suffix);
    }
    assert s[|schema| + 1..] == name + suffix;
    StripBareName(name, suffix);
  }

  lemma {:induction false} NonDotRunPrefix(a: string, b: string)
    requires forall i :: 0 <= i < |a| ==> a[i] != '.'
    requires |b| > 0 && b[0] == '.'
    ensures NonDotRun(a + b) == |a|
  {
    if |a| == 0 {
      assert a + b == b;
    } else {
      NonDotRunPrefix(a[1..], b);
      assert (a + b)[1..] == a[1..] + b;
    }
  }

  // ---------------------------------------------------------------------------
  // match(...)

  /** `match(...rules)(t)`: the value of the first rule whose test accepts `t`. */
  function Match<V>(rules: seq<(string -> bool, V)>, t: string): (r: Option<V>)
    ensures r.None? <==> forall i :: 0 <= i < |rules| ==> !rules[i].0(t)
    ensures r.Some? ==>
      exists i :: 0 <= i < |rules| && rules[i].0(t) && rules[i].1 == r.value &&
        forall j :: 0 <= j < i ==> !rules[j].0(t)
  {
    if |rules| == 0 then None
    else if rules[0].0(t) then Some(rules[0].1)
    else
      var r := Match(rules[1..], t);
      assert forall i :: 1 <= i < |rules| ==> rules[i] == rules[1..][i - 1];
      r
  }

  /** `t` is `prefix` followed by decimal digits only (`prefix\d*`). */
  predicate DigitsAfter(t: string, prefix: string)
  {
    StartsWith(t, prefix) && AllDigits(t[|prefix|..])
  }

  /** `t` ends with `word` followed by decimal digits only (`word\d*?$`). */
  predicate EndsWithDigitsAfter(t: string, word: string)
  {
    exists k :: 0 <= k <= |t| && EndsWith(t[..k], word) && AllDigits(t[k..])
  }

  // `new RegExp("^" + source + "$")` binds `^` to the first alternative and `$` to the last.

  predicate TextOrNameAsWritten(t: string) { StartsWith(t, "text") || EndsWith(t, "name") }
  predicate BooleanName(t: string) { t == "bool" || t == "boolean" }
  predicate NumberNameAsWritten(t: string)
  {
    StartsWith(t, "int") || StartsWith(t, "bigint") || Contains(t, "numeric") || EndsWithDigitsAfter(t, "float")
  }
  predicate ParserNumberNameAsWritten(t: string)
  {
    StartsWith(t, "int") || Contains(t, "numeric") || EndsWithDigitsAfter(t, "float")
  }
  predicate TemporalNameAsWritten(t: string) { StartsWith(t, "timestamp") || EndsWith(t, "date") }
  predicate JsonName(t: string) { t == "json" || t == "jsonb" }

  // The same patterns matched against the whole name.

  predicate TextOrName(t: string) { t == "text" || t == "name" }
  predicate NumberName(t: string)
  {
    DigitsAfter(t, "int") || DigitsAfter(t, "bigint") || t == "numeric" || DigitsAfter(t, "float")
  }
  predicate ParserNumberName(t: string)
  {
    DigitsAfter(t, "int") || t == "numeric" || DigitsAfter(t, "float")
  }
  predicate TemporalName(t: string) { t == "timestamp" || t == "timestamptz" || t == "date" }

  function JsTypeRulesAsWritten(): seq<(string -> bool, string)>
  {
    [(TextOrNameAsWritten, "string"), (BooleanName, "boolean"), (NumberNameAsWritten, "number"),
     (TemporalNameAsWritten, "Date"), (JsonName, "any")]
  }

  function JsTypeRules(): seq<(string -> bool, string)>
  {
    [(TextOrName, "string"), (BooleanName, "boolean"), (NumberName, "number"),
     (TemporalName, "Date"), (JsonName, "any")]
  }

  function JsParserRulesAsWritten(): seq<(string -> bool, string)>
  {
    [(TextOrNameAsWritten, "s.str"), (BooleanName, "s.bool"), (ParserNumberNameAsWritten, "s.num"),
     (TemporalNameAsWritten, "s.date"), (JsonName, "s.as_is")]
  }

  function JsParserRules(): seq<(string -> bool, string)>
  {
    [(TextOrName, "s.str"), (BooleanName, "s.bool"), (ParserNumberName, "s.num"),
     (TemporalName, "s.date"), (JsonName, "s.as_is")]
  }

  predicate HasArrayMarker(t: string)
  {
    Contains(t, "[]")
  }

  function JsTypeWith(rules: seq<(string -> bool, string)>, ty: string): string
  {
    var t := StripQualifiers(ty);
    var base := match Match(rules, t) case Some(v) => v case None => CamelCase(t);
    base + (if HasArrayMarker(ty) then "[]" else "")
  }

  function JsParserWith(rules: seq<(string -> bool, string)>, ty: string): string
  {
    var t := StripQualifiers(ty);
    var base := match Match(rules, t) case Some(v) => v case None => "s.embed(() => " + CamelCase(t) + ")";
    base + (if HasArrayMarker(ty) then ".array" else "")
  }

  /** `getJsType` as written: each pattern anchored at one end only. */
  function GetJsTypeAsWritten(ty: string): string
  {
    JsTypeWith(JsTypeRulesAsWritten(), ty)
  }

  /** `getJsType` with every pattern matched against the whole name. */
  function GetJsType(ty: string): string
  {
    JsTypeWith(JsTypeRules(), ty)
  }

  /** `getJsParser` as written. */
  function GetJsParserAsWritten(ty: string): string
  {
    JsParserWith(JsParserRulesAsWritten(), ty)
  }

  /** `getJsParser` with every pattern matched against the whole name. */
  function GetJsParser(ty: string): string
  {
    JsParserWith(JsParserRules(), ty)
  }

  /** A type is `number` exactly when its bare name is an integer, numeric or float type. */
  lemma NumberTypeNames(ty: string)
    requires !HasArrayMarker(ty)
    ensures GetJsType(ty) == "number" <==>
      (NumberName(StripQualifiers(ty)) && !TextOrName(StripQualifiers(ty)) && !BooleanName(StripQualifiers(ty)))
  {
    var t := StripQualifiers(ty);
    var rules := JsTypeRules();
    assert rules[0].0(t) == TextOrName(t) && rules[0].1 == "string";
    assert rules[1].0(t) == BooleanName(t) && rules[1].1 == "boolean";
    assert rules[2].0(t) == NumberName(t) && rules[2].1 == "number";
    assert rules[3].1 == "Date" && rules[4].1 == "any";
    var m := Match(rules, t);
    assert GetJsType(ty) == (match m case Some(v) => v case None => CamelCase(t));
    if m.Some? {
      var i :| 0 <= i < |rules| && rules[i].0(t) && rules[i].1 == m.value &&
        forall j :: 0 <= j < i ==> !rules[j].0(t);
      assert m.value == "number" <==> i == 2;
    } else {
      CamelCaseNotNumber(t);
    }
  }

  /** No camel-cased name is `number`: its first letter is never a lower-case ASCII letter. */
  lemma CamelCaseNotNumber(t: string)
    ensures CamelCase(t) != "number"
  {
    if |t| > 0 && !IsLineTerminator(t[0]) {
      assert CamelCase(t)[0] == Upper(t[0]);
    } else if |t| > 0 {
      assert CamelCase(t)[0] == t[0];
    }
  }

  /** The array form of a qualified type is the element's type with `[]`, and its parser with `.array`. */
  lemma QualifiedArrayType(schema: string, name: string)
    requires |schema| > 0 && forall i :: 0 <= i < |schema| ==> schema[i] != '.'
    requires IsBareName(name)
    ensures GetJsType(schema + "." + name + "[]") == GetJsType(name) + "[]"
    ensures GetJsParser(schema + "." + name + "[]") == GetJsParser(name) + ".array"
  {
    var q := schema + "." + name + "[]";
    StripQualifiedName(schema, name, "[]");
    StripBareName(name, "");
    assert name + "" == name;
    assert HasArrayMarker(q) by {
      ContainsSuffix(schema + "." + name, "[]");
    }
    assert !HasArrayMarker(name) by {
      NoOpenBracketNoMarker(name);
    }
    SameBareName(JsTypeRules(), JsParserRules(), q, name);
  }

  /** Two types with the same bare name, one an array and one not, differ only by the array marker. */
  lemma SameBareName(typeRules: seq<(string -> bool, string)>, parserRules: seq<(string -> bool, string)>,
                     a: string, b: string)
    requires StripQualifiers(a) == StripQualifiers(b) && HasArrayMarker(a) && !HasArrayMarker(b)
    ensures JsTypeWith(typeRules, a) == JsTypeWith(typeRules, b) + "[]"
    ensures JsParserWith(parserRules, a) == JsParserWith(parserRules, b) + ".array"
  {
    assert JsTypeWith(typeRules, b) + "" == JsTypeWith(typeRules, b);
    assert JsParserWith(parserRules, b) + "" == JsParserWith(parserRules, b);
  }

  lemma {:induction false} ContainsSuffix(a: string, b: string)
    ensures Contains(a + b, b)
  {
    if |a| > 0 {
      ContainsSuffix(a[1..], b);
      assert (a + b)[1..] == a[1..] + b;
    } else {
      assert a + b == b;
    }
  }

  lemma {:induction false} NoOpenBracketNoMarker(s: string)
    requires forall i :: 0 <= i < |s| ==> s[i] != '['
    ensures !HasArrayMarker(s)
  {
    if |s| > 0 {
      NoOpenBracketNoMarker(s[1..]);
      assert |s| < 2 || s[..2][0] != '[';
    }
  }

  lemma FirstCharDiffers(s: string, p: string)
    requires |p| > 0 && |s| > 0 && s[0] != p[0]
    ensures !StartsWith(s, p)
  {
    if |p| <= |s| {
      assert s[..|p|][0] == s[0];
    }
  }

  lemma SecondCharDiffers(s: string, p: string)
    requires |p| > 1 && |s| > 1 && s[1] != p[1]
    ensures !StartsWith(s, p)
  {
    if |p| <= |s| {
      assert s[..|p|][1] == s[1];
    }
  }

  lemma {:induction false} ShortNoContains(s: string, sub: string)
    requires |s| < |sub|
    ensures !Contains(s, sub)
  {
    if |s| > 0 {
      ShortNoContains(s[1..], sub);
    }
  }

  lemma CandidateAsWritten()
    ensures Match(JsTypeRulesAsWritten(), "candidate") == Some("Date")
  {
    var c := "candidate";
    assert EndsWith(c, "date") by { assert c[|c| - 4..] == "date"; }
    assert !EndsWith(c, "name") by { assert c[|c| - 4..] == "date"; }
    FirstCharDiffers(c, "text");
    FirstCharDiffers(c, "int");
    FirstCharDiffers(c, "bigint");
    assert !Contains(c, "numeric") by {
      var sub := "numeric";
      FirstCharDiffers(c, sub);
      FirstCharDiffers(c[1..], sub);
      SecondCharDiffers(c[2..], sub);
      ShortNoContains(c[3..], sub);
      assert c[1..][1..] == c[2..] && c[2..][1..] == c[3..];
    }
    assert !EndsWithDigitsAfter(c, "float") by { NoFloatSuffix(c); }
    assert !BooleanName(c);
  }

  lemma CandidateWhole()
    ensures Match(JsTypeRules(), "candidate") == None
  {
    var c := "candidate";
    FirstCharDiffers(c, "int");
    FirstCharDiffers(c, "bigint");
    FirstCharDiffers(c, "float");
    assert !TextOrName(c) && !BooleanName(c) && !TemporalName(c) && !JsonName(c) && c != "numeric";
  }

  lemma IntervalAsWritten()
    ensures Match(JsTypeRulesAsWritten(), "interval") == Some("number")
  {
    var n := "interval";
    assert StartsWith(n, "int") by { assert n[..3] == "int"; }
    FirstCharDiffers(n, "text");
    assert !EndsWith(n, "name") by { assert n[|n| - 4..] == "rval"; }
    assert !BooleanName(n);
  }

  lemma IntervalWhole()
    ensures Match(JsTypeRules(), "interval") == None
  {
    var n := "interval";
    assert !AllDigits(n[3..]) by { assert n[3..][0] == 'e'; }
    FirstCharDiffers(n, "bigint");
    FirstCharDiffers(n, "float");
    assert !TextOrName(n) && !BooleanName(n) && !TemporalName(n) && !JsonName(n) && n != "numeric";
  }

  /** The type of a qualified, non-array name is decided by the name alone. */
  lemma QualifiedNameType(schema: string, name: string)
    requires |schema| > 0 && forall i :: 0 <= i < |schema| ==> schema[i] != '.' && schema[i] != '['
    requires IsBareName(name)
    ensures GetJsTypeAsWritten(schema + "." + name) ==
      match Match(JsTypeRulesAsWritten(), name) case Some(v) => v case None => CamelCase(name)
    ensures GetJsType(schema + "." + name) ==
      match Match(JsTypeRules(), name) case Some(v) => v case None => CamelCase(name)
  {
    StripQualifiedName(schema, name, "");
    assert schema + "." + name + "" == schema + "." + name;
    NoOpenBracketNoMarker(schema + "." + name);
  }

  /** A qualified name that no whole-name pattern matches keeps its camel-cased name. */
  lemma UnmatchedQualifiedName(schema: string, name: string)
    requires |schema| > 0 && forall i :: 0 <= i < |schema| ==> schema[i] != '.' && schema[i] != '['
    requires IsBareName(name) && Match(JsTypeRules(), name) == None
    ensures GetJsType(schema + "." + name) == CamelCase(name)
  {
    QualifiedNameType(schema, name);
  }

  /**
   * With the patterns anchored at one end only, a composite type `candidate` in any
   * schema is taken for a date.
   */
  lemma CandidateTypeAsWritten(schema: string, name: string)
    requires |schema| > 0 && forall i :: 0 <= i < |schema| ==> schema[i] != '.' && schema[i] != '['
    requires name == "candidate"
    ensures GetJsTypeAsWritten(schema + "." + name) == "Date"
  {
    QualifiedNameType(schema, name);
    CandidateAsWritten();
  }

  lemma CandidateCamel(name: string)
    requires name == "candidate"
    ensures CamelCase(name) == "Candidate"
  {
    PlainCamelCase(name);
  }

  lemma CandidateUnmatched(schema: string, name: string)
    requires |schema| > 0 && forall i :: 0 <= i < |schema| ==> schema[i] != '.' && schema[i] != '['
    requires name == "candidate"
    ensures GetJsType(schema + "." + name) == CamelCase(name)
  {
    CandidateWhole();
    UnmatchedQualifiedName(schema, name);
  }

  /** Matched against the whole name, `candidate` keeps its camel-cased name. */
  lemma CandidateType(schema: string, name: string)
    requires |schema| > 0 && forall i :: 0 <= i < |schema| ==> schema[i] != '.' && schema[i] != '['
    requires name == "candidate"
    ensures GetJsType(schema + "." + name) == "Candidate"
  {
    CandidateUnmatched(schema, name);
    CandidateCamel(name);
  }

  /** As written, `interval` in any schema is taken for a number. */
  lemma IntervalTypeAsWritten(schema: string, name: string)
    requires |schema| > 0 && forall i :: 0 <= i < |schema| ==> schema[i] != '.' && schema[i] != '['
    requires name == "interval"
    ensures GetJsTypeAsWritten(schema + "." + name) == "number"
  {
    QualifiedNameType(schema, name);
    IntervalAsWritten();
  }

  lemma IntervalCamel(name: string)
    requires name == "interval"
    ensures CamelCase(name) == "Interval"
  {
    PlainCamelCase(name);
  }

  lemma IntervalUnmatched(schema: string, name: string)
    requires |schema| > 0 && forall i :: 0 <= i < |schema| ==> schema[i] != '.' && schema[i] != '['
    requires name == "interval"
    ensures GetJsType(schema + "." + name) == CamelCase(name)
  {
    IntervalWhole();
    UnmatchedQualifiedName(schema, name);
  }

  /** Matched against the whole name, `interval` keeps its camel-cased name. */
  lemma IntervalType(schema: string, name: string)
    requires |schema| > 0 && forall i :: 0 <= i < |schema| ==> schema[i] != '.' && schema[i] != '['
    requires name == "interval"
    ensures GetJsType(schema + "." + name) == "Interval"
  {
    IntervalUnmatched(schema, name);
    IntervalCamel(name);
  }

  /** A name without `_` or line breaks only has its first letter raised. */
  lemma PlainCamelCase(w: string)
    requires IsWord(w)
    ensures CamelCase(w) == Capitalized(w)
  {
    CamelCaseOfWords([w]);
    assert Join([w], "_") == w;
  }

  lemma NoFloatSuffix(c: string)
    requires c == "candidate"
    ensures !EndsWithDigitsAfter(c, "float")
  {
    forall k | 0 <= k <= |c| ensures !(EndsWith(c[..k], "float") && AllDigits(c[k..])) {
      if k < |c| {
        assert !IsDigit(c[k..][|c| - k - 1]);
      } else {
        assert c[..k] == c;
        assert c[4..] == "idate";
      }
    }
  }

  // ---------------------------------------------------------------------------
  // getTryGetDefault

  /** What `getTryGetDefault` reads of a column. */
  datatype ColumnInfo = ColumnInfo(isNullable: bool, isArray: bool, defaultValue: Option<string>)

  /** A field initialiser: TypeScript code, or `Number(text)` for a decimal default. */
  datatype Initialiser = Code(code: string) | NumberOf(text: string)

  /** `/^\d+(\.\d+)?$/`. */
  predicate IsDecimal(s: string)
  {
    exists k :: 0 < k <= |s| && AllDigits(s[..k]) &&
      (k == |s| || (s[k] == '.' && k + 1 < |s| && AllDigits(s[k + 1..])))
  }

  /** A regular expression test on `null` reads the text "null". */
  function DefaultText(d: Option<string>): string
  {
    match d case None => "null" case Some(s) => s
  }

  /** The text of a `'…'::text` default: the quotes and cast dropped, `''` collapsed to `'`. */
  function TextDefault(def: string): string
  {
    Undouble(Slice(def, 1, |def| - 7), '\'')
  }

  function InitialiserWith(c: ColumnInfo, quote: string -> string): Initialiser
  {
    var def := DefaultText(c.defaultValue);
    if c.isNullable then Code("null")
    else if c.isArray then Code("[]")
    else if EndsWith(def, "'::text") then Code("\"" + quote(TextDefault(def)) + "\"")
    else if IsDecimal(def) then NumberOf(def)
    else if def == "CURRENT_TIMESTAMP" then Code("new Date()")
    else Code("undefined!")
  }

  /** `getTryGetDefault` as written: the text of a `'…'::text` default is put between quotes as is. */
  function TryGetDefaultAsWritten(c: ColumnInfo): Initialiser
  {
    InitialiserWith(c, s => s)
  }

  /** `getTryGetDefault` with the text of a `'…'::text` default escaped as a literal body. */
  function TryGetDefault(c: ColumnInfo): Initialiser
  {
    InitialiserWith(c, t => EncodeLiteralBody(t, '"'))
  }

  /** The default PostgreSQL prints for a text column defaulting to `t`. */
  function TextLiteralDefault(t: string): string
  {
    "'" + Double(t, '\'') + "'::text"
  }

  lemma TextDefaultOfLiteral(t: string)
    ensures EndsWith(TextLiteralDefault(t), "'::text")
    ensures TextDefault(TextLiteralDefault(t)) == t
  {
    var d := TextLiteralDefault(t);
    assert Slice(d, 1, |d| - 7) == Double(t, '\'');
    UndoubleDouble(t, '\'');
  }

  /**
   * Precedence: nullable first, then arrays; otherwise a text default becomes a string
   * literal denoting exactly the text.
   */
  lemma TextDefaultRoundTrip(c: ColumnInfo, t: string)
    requires c.defaultValue == Some(TextLiteralDefault(t))
    ensures c.isNullable ==> TryGetDefault(c) == Code("null")
    ensures !c.isNullable && c.isArray ==> TryGetDefault(c) == Code("[]")
    ensures !c.isNullable && !c.isArray ==>
      TryGetDefault(c).Code? && DecodeLiteral(TryGetDefault(c).code, '"') == Some(t)
  {
    TextDefaultOfLiteral(t);
    QuotedLiteralDecodes(t, '"');
  }

  /** As written, the round trip holds only for text without quotes, backslashes or line breaks. */
  lemma TextDefaultAsWrittenPlain(c: ColumnInfo, t: string)
    requires c.defaultValue == Some(TextLiteralDefault(t)) && !c.isNullable && !c.isArray
    requires forall i :: 0 <= i < |t| ==> t[i] != '"' && t[i] != '\\' && t[i] != '\n' && t[i] != '\r'
    ensures TryGetDefaultAsWritten(c) == Code("\"" + t + "\"")
    ensures DecodeLiteral(TryGetDefaultAsWritten(c).code, '"') == Some(t)
  {
    TextDefaultOfLiteral(t);
    DecodePlainLiteral(t, '"');
    var lit := "\"" + t + "\"";
    assert lit[1..|lit| - 1] == t;
  }

  /** As written, a text default holding `"` yields a literal that does not denote it. */
  lemma TextDefaultAsWrittenQuote(c: ColumnInfo)
    requires c == ColumnInfo(false, false, Some(TextLiteralDefault("a\"b")))
    ensures TryGetDefaultAsWritten(c) == Code("\"a\"b\"")
    ensures DecodeLiteral(TryGetDefaultAsWritten(c).code, '"') == None
  {
    TextDefaultOfLiteral("a\"b");
    var lit := "\"a\"b\"";
    assert lit[1..|lit| - 1] == "a" + "\"" + "b";
    BareQuoteBreaksLiteral("a", "b", '"');
  }

  lemma DecimalEnds(s: string)
    requires |s| > 0
    ensures IsDecimal(s) ==> IsDigit(s[0]) && IsDigit(s[|s| - 1])
  {
    if IsDecimal(s) {
      var k :| 0 < k <= |s| && AllDigits(s[..k]) &&
        (k == |s| || (s[k] == '.' && k + 1 < |s| && AllDigits(s[k + 1..])));
      assert s[..k][0] == s[0];
      if k == |s| {
        assert s[..k][k - 1] == s[|s| - 1];
      } else {
        assert s[k + 1..][|s| - k - 2] == s[|s| - 1];
      }
    }
  }

  /**
   * The other initialisers: a decimal default is read as a number, `CURRENT_TIMESTAMP`
   * is the current date, and a missing default is left to the caller (`undefined!`).
   */
  lemma OtherDefaults(c: ColumnInfo)
    requires !c.isNullable && !c.isArray
    ensures (c.defaultValue.Some? && IsDecimal(c.defaultValue.value)) ==>
      TryGetDefault(c) == NumberOf(c.defaultValue.value)
    ensures c.defaultValue == Some("CURRENT_TIMESTAMP") ==> TryGetDefault(c) == Code("new Date()")
    ensures c.defaultValue == None ==> TryGetDefault(c) == Code("undefined!")
  {
    var def := DefaultText(c.defaultValue);
    if |def| >= 7 {
      assert def[|def| - 7..][6] == def[|def| - 1];
    }
    if |def| > 0 {
      DecimalEnds(def);
    }
  }
}
