/**
 * The type-mapping layer of the pgts generator (src/type.ts): the registry of basic
 * types looked up from the latest registration back, the TypeScript name and serializer
 * expression of a PostgreSQL type (recursive over array element types), the initialiser
 * of a column, the split of a function's arguments at its first TABLE argument, and the
 * quoting of argument names.
 */
module PgtsTypes {
  import opened Wrappers
  import opened Strings
  import PgtsNaming

  // ---------------------------------------------------------------------------
  // camelcase: s[0].toUpperCase() + s.slice(1).replace(/_([\w])/g, (m, l) => l.toUpperCase())

  /** `\w`: an ASCII letter, a decimal digit or `_`. */
  predicate IsWordChar(c: char)
  {
    'a' <= c <= 'z' || 'A' <= c <= 'Z' || IsDigit(c) || c == '_'
  }

  /** The global replacement of `_` and the word character after it by that character in upper case. */
  function UpperAfterUnderscores(t: string): string
  {
    if |t| == 0 then ""
    else if |t| >= 2 && t[0] == '_' && IsWordChar(t[1]) then [Upper(t[1])] + UpperAfterUnderscores(t[2..])
    else [t[0]] + UpperAfterUnderscores(t[1..])
  }

  /** `camelcase(s)`; `None` for "", where `s[0]` is undefined and `toUpperCase` throws. */
  function Camelcase(s: string): (r: Option<string>)
    ensures r.Some? <==> |s| > 0
    ensures r.Some? ==> |r.value| > 0 && r.value[0] == Upper(s[0])
  {
    if |s| == 0 then None else Some([Upper(s[0])] + UpperAfterUnderscores(s[1..]))
  }

  /** A word of a snake_case name: ASCII letters and digits only. */
  predicate IsAlnumWord(w: string)
  {
    |w| > 0 && forall i :: 0 <= i < |w| ==> IsWordChar(w[i]) && w[i] != '_'
  }

  /** One character other than `_` is copied as it is. */
  lemma UpperAfterPlainHead(s: string)
    requires |s| > 0 && s[0] != '_'
    ensures UpperAfterUnderscores(s) == [s[0]] + UpperAfterUnderscores(s[1..])
  {
  }

  lemma {:induction false} UpperAfterPlain(w: string, rest: string)
    requires forall i :: 0 <= i < |w| ==> w[i] != '_'
    ensures UpperAfterUnderscores(w + rest) == w + UpperAfterUnderscores(rest)
  {
    if |w| > 0 {
      var s := w + rest;
      assert s[0] == w[0] && s[1..] == w[1..] + rest;
      UpperAfterPlainHead(s);
      UpperAfterPlain(w[1..], rest);
      assert [w[0]] + w[1..] == w;
    } else {
      assert w + rest == rest;
    }
  }

  lemma {:induction false} UpperAfterWords(ws: seq<string>)
    requires |ws| >= 1 && forall i :: 0 <= i < |ws| ==> IsAlnumWord(ws[i])
    ensures UpperAfterUnderscores("_" + Join(ws, "_")) == PgtsNaming.ConcatCapitalized(ws)
  {
    var w := ws[0];
    var tail := if |ws| == 1 then "" else "_" + Join(ws[1..], "_");
    PgtsNaming.JoinHead(ws);
    UnderscoreThenWord(w, tail);
    CapitalizedHead(ws);
    if |ws| > 1 {
      UpperAfterWords(ws[1..]);
    } else {
      assert UpperAfterUnderscores(tail) == "";
      assert [Upper(w[0])] + w[1..] + "" == [Upper(w[0])] + w[1..];
    }
  }

  lemma UnderscoreThenWord(w: string, tail: string)
    requires IsAlnumWord(w)
    ensures UpperAfterUnderscores("_" + (w + tail)) == [Upper(w[0])] + w[1..] + UpperAfterUnderscores(tail)
  {
    var s := "_" + (w + tail);
    assert s[0] == '_' && s[1] == w[0] && IsWordChar(w[0]);
    assert s[2..] == w[1..] + tail;
    UpperAfterPlain(w[1..], tail);
  }

  lemma CapitalizedHead(ws: seq<string>)
    requires |ws| >= 1 && |ws[0]| > 0
    ensures PgtsNaming.ConcatCapitalized(ws) ==
      [Upper(ws[0][0])] + ws[0][1..] + PgtsNaming.ConcatCapitalized(ws[1..])
    ensures |ws| == 1 ==> PgtsNaming.ConcatCapitalized(ws[1..]) == ""
  {
  }

  /** The first word of a name is capitalised and the rest is left to the replacement. */
  lemma CamelcaseSplit(w: string, tail: string)
    requires IsAlnumWord(w)
    ensures Camelcase(w + tail) == Some([Upper(w[0])] + w[1..] + UpperAfterUnderscores(tail))
  {
    var s := w + tail;
    assert s[0] == w[0] && s[1..] == w[1..] + tail;
    UpperAfterPlain(w[1..], tail);
    var u := UpperAfterUnderscores(tail);
    assert Camelcase(s) == Some([Upper(w[0])] + (w[1..] + u));
    assert [Upper(w[0])] + (w[1..] + u) == [Upper(w[0])] + w[1..] + u;
  }

  /** What follows the first word of a snake_case name turns into the capitalised other words. */
  lemma UpperAfterTail(ws: seq<string>)
    requires |ws| >= 1 && forall i :: 0 <= i < |ws| ==> IsAlnumWord(ws[i])
    ensures UpperAfterUnderscores(if |ws| == 1 then "" else "_" + Join(ws[1..], "_"))
      == PgtsNaming.ConcatCapitalized(ws[1..])
  {
    if |ws| > 1 {
      UpperAfterWords(ws[1..]);
    } else {
      CapitalizedHead(ws);
    }
  }

  /** `camelcase` of a snake_case name capitalises each word and drops the underscores. */
  lemma {:induction false} CamelcaseOfWords(ws: seq<string>)
    requires |ws| >= 1 && forall i :: 0 <= i < |ws| ==> IsAlnumWord(ws[i])
    ensures Camelcase(Join(ws, "_")) == Some(PgtsNaming.ConcatCapitalized(ws))
  {
    var w := ws[0];
    var tail := if |ws| == 1 then "" else "_" + Join(ws[1..], "_");
    PgtsNaming.JoinHead(ws);
    assert Join(ws, "_") == w + tail;
    CamelcaseSplit(w, tail);
    UpperAfterTail(ws);
    CapitalizedHead(ws);
  }

  /** Two underscores in a row: the first one and the second (a word character) become one `_`. */
  lemma DoubleUnderscore()
    ensures Camelcase("a__b") == Some("A_b")
  {
    assert Upper('a') == 'A' && Upper('_') == '_' && Upper('b') == 'B';
    var t := "__b";
    assert "a__b"[1..] == t;
    assert t[0] == '_' && IsWordChar(t[1]);
    assert t[2..] == "b";
    assert "b"[1..] == "";
    assert UpperAfterUnderscores("b") == "b";
    assert UpperAfterUnderscores(t) == [Upper(t[1])] + UpperAfterUnderscores(t[2..]);
    assert UpperAfterUnderscores(t) == "_b";
    assert Camelcase("a__b") == Some([Upper('a')] + UpperAfterUnderscores(t));
    assert [Upper('a')] + "_b" == "A_b";
  }

  // ---------------------------------------------------------------------------
  // PgtsType.registerBasicType / getBasicType

  /** The patterns basic types are registered with. */
  datatype Pattern =
    | Whole(word: string)                  // a plain string s, compiled to /^s$/
    | StartsWithAny(prefixes: seq<string>) // /^(a|b|…)/
    | ContainsAny(words: seq<string>)      // /a|b|…/

  /** `regexp.test(name)`. */
  predicate Tests(p: Pattern, name: string)
  {
    match p
    case Whole(w) => name == w
    case StartsWithAny(ps) => exists i :: 0 <= i < |ps| && StartsWith(name, ps[i])
    case ContainsAny(ws) => exists i :: 0 <= i < |ws| && Contains(name, ws[i])
  }

  datatype BasicType = BasicType(pattern: Pattern, jsname: string, serializer: string, defaultExp: string)

  /** The entry `getBasicType(name)` returns: the latest registered one whose pattern accepts `name`. */
  function LastMatch(entries: seq<BasicType>, name: string): (r: Option<BasicType>)
    ensures r.None? <==> forall i :: 0 <= i < |entries| ==> !Tests(entries[i].pattern, name)
    ensures r.Some? ==>
      exists i :: 0 <= i < |entries| && entries[i] == r.value && Tests(entries[i].pattern, name) &&
        forall j :: i < j < |entries| ==> !Tests(entries[j].pattern, name)
  {
    if |entries| == 0 then None
    else if Tests(entries[|entries| - 1].pattern, name) then Some(entries[|entries| - 1])
    else
      var r := LastMatch(entries[..|entries| - 1], name);
      assert forall i :: 0 <= i < |entries| - 1 ==> entries[..|entries| - 1][i] == entries[i];
      r
  }

  /** A new registration wins over every earlier one for the names it accepts, and changes nothing else. */
  lemma RegisterOverrides(entries: seq<BasicType>, e: BasicType, name: string)
    ensures Tests(e.pattern, name) ==> LastMatch(entries + [e], name) == Some(e)
    ensures !Tests(e.pattern, name) ==> LastMatch(entries + [e], name) == LastMatch(entries, name)
  {
    assert (entries + [e])[..|entries|] == entries;
  }

  const TextType := BasicType(StartsWithAny(["text", "name", "tsvector"]), "string", "s.str", "\"\"")
  const NumberType := BasicType(StartsWithAny(["int", "float", "numeric", "real"]), "number", "s.num", "0")
  const BoolType := BasicType(Whole("bool"), "boolean", "s.bool", "false")
  const DateType := BasicType(ContainsAny(["date", "timestamp"]), "Date", "s.date", "new Date()")
  const HstoreType := BasicType(Whole("hstore"), "Map<string, string>", "s.str.map", "new Map()")
  const JsonType := BasicType(StartsWithAny(["json"]), "unknown", "s.as_is", "null!")
  const VoidType := BasicType(Whole("void"), "void", "", "null!")

  /** The registrations made when the module loads, in order. */
  function DefaultBasicTypes(): seq<BasicType>
  {
    [TextType, NumberType, BoolType, DateType, HstoreType, JsonType, VoidType]
  }

  /** The default classification read as a priority list, latest registration first. */
  function DefaultBasicType(name: string): Option<BasicType>
  {
    if name == "void" then Some(VoidType)
    else if StartsWith(name, "json") then Some(JsonType)
    else if name == "hstore" then Some(HstoreType)
    else if Contains(name, "date") || Contains(name, "timestamp") then Some(DateType)
    else if name == "bool" then Some(BoolType)
    else if StartsWith(name, "int") || StartsWith(name, "float") || StartsWith(name, "numeric") || StartsWith(name, "real")
    then Some(NumberType)
    else if StartsWith(name, "text") || StartsWith(name, "name") || StartsWith(name, "tsvector") then Some(TextType)
    else None
  }

  /** The latest-first lookup over the default registrations is that priority list. */
  lemma DefaultLookup(name: string)
    ensures LastMatch(DefaultBasicTypes(), name) == DefaultBasicType(name)
  {
    var d1 := [TextType];
    var d2 := d1 + [NumberType];
    var d3 := d2 + [BoolType];
    var d4 := d3 + [DateType];
    var d5 := d4 + [HstoreType];
    var d6 := d5 + [JsonType];
    assert d6 + [VoidType] == DefaultBasicTypes();
    RegisterOverrides(d6, VoidType, name);
    RegisterOverrides(d5, JsonType, name);
    RegisterOverrides(d4, HstoreType, name);
    RegisterOverrides(d3, DateType, name);
    RegisterOverrides(d2, BoolType, name);
    RegisterOverrides(d1, NumberType, name);
    RegisterOverrides([], TextType, name);
    assert [] + [TextType] == d1;
    TestsLiterals(name);
  }

  lemma TestsLiterals(name: string)
    ensures Tests(TextType.pattern, name) <==>
      StartsWith(name, "text") || StartsWith(name, "name") || StartsWith(name, "tsvector")
    ensures Tests(NumberType.pattern, name) <==>
      StartsWith(name, "int") || StartsWith(name, "float") || StartsWith(name, "numeric") || StartsWith(name, "real")
    ensures Tests(DateType.pattern, name) <==> Contains(name, "date") || Contains(name, "timestamp")
    ensures Tests(JsonType.pattern, name) <==> StartsWith(name, "json")
  {
    var t := ["text", "name", "tsvector"];
    assert t[0] == "text" && t[1] == "name" && t[2] == "tsvector";
    var n := ["int", "float", "numeric", "real"];
    assert n[0] == "int" && n[1] == "float" && n[2] == "numeric" && n[3] == "real";
    var d := ["date", "timestamp"];
    assert d[0] == "date" && d[1] == "timestamp";
    assert ["json"][0] == "json";
  }

  /** A name starting with `int` and holding `date` is a Date: the later registration wins. */
  lemma LaterRegistrationWins(name: string)
    requires StartsWith(name, "int") && Contains(name, "date")
    ensures Tests(NumberType.pattern, name) && Tests(DateType.pattern, name)
    ensures LastMatch(DefaultBasicTypes(), name) == Some(DateType)
  {
    TestsLiterals(name);
    DefaultLookup(name);
    assert name[0] == name[..3][0] == 'i';
    assert !StartsWith(name, "json") by {
      if |name| >= 4 { assert name[..4][0] == 'i'; }
    }
  }

  /** The prefix pattern `^(int|…)` also accepts `interval`, which is then typed as a number. */
  lemma IntervalIsNumber(name: string)
    requires name == "interval"
    ensures LastMatch(DefaultBasicTypes(), name) == Some(NumberType)
  {
    DefaultLookup(name);
    assert name[..3] == "int";
    NoFirstCharNoContains(name, "date");
    PgtsNaming.ShortNoContains(name, "timestamp");
  }

  /** The mutable registry `PgtsType.basic_types`. */
  class BasicTypes {
    var entries: seq<BasicType>

    constructor ()
      ensures entries == []
    {
      entries := [];
    }

    /** `registerBasicType`: appends an entry. */
    method Register(pattern: Pattern, jsname: string, serializer: string, defaultExp: string)
      modifies this
      ensures entries == old(entries) + [BasicType(pattern, jsname, serializer, defaultExp)]
    {
      entries := entries + [BasicType(pattern, jsname, serializer, defaultExp)];
    }

    /** The registrations made at load time (src/type.ts:484-491). */
    method RegisterDefaults()
      modifies this
      ensures entries == old(entries) + DefaultBasicTypes()
    {
      Register(StartsWithAny(["text", "name", "tsvector"]), "string", "s.str", "\"\"");
      Register(StartsWithAny(["int", "float", "numeric", "real"]), "number", "s.num", "0");
      Register(Whole("bool"), "boolean", "s.bool", "false");
      Register(ContainsAny(["date", "timestamp"]), "Date", "s.date", "new Date()");
      Register(Whole("hstore"), "Map<string, string>", "s.str.map", "new Map()");
      Register(StartsWithAny(["json"]), "unknown", "s.as_is", "null!");
      Register(Whole("void"), "void", "", "null!");
    }

    /** `getBasicType`: scans the registrations from the latest back. */
    method GetBasicType(name: string) returns (r: Option<BasicType>)
      ensures r == LastMatch(entries, name)
    {
      var es := entries;
      var i := |es|;
      assert es[..i] == es;
      while i > 0
        invariant 0 <= i <= |es|
        invariant LastMatch(es, name) == LastMatch(es[..i], name)
      {
        LastMatchPrefix(es, i, name);
        if Tests(es[i - 1].pattern, name) {
          return Some(es[i - 1]);
        }
        i := i - 1;
      }
      return None;
    }
  }

  /** One step of the backward scan: the last of the first `i` entries decides, else the ones before it. */
  lemma LastMatchPrefix(entries: seq<BasicType>, i: nat, name: string)
    requires 0 < i <= |entries|
    ensures LastMatch(entries[..i], name) ==
      if Tests(entries[i - 1].pattern, name) then Some(entries[i - 1]) else LastMatch(entries[..i - 1], name)
  {
    assert entries[..i][..i - 1] == entries[..i - 1];
  }

  // ---------------------------------------------------------------------------
  // PgtsType: jsName, jsSerializer, jsTypeNameExp

  /** `pg_type.typname`, which is never empty. */
  type TypeName = s: string | |s| > 0 witness "t"

  /**
   * A PostgreSQL type as `PgtsType` sees it: its name, whether it is composite
   * (`typtype = 'c'`), `typnotnull`, and the element type when it is an array.
   */
  datatype PgType = PgType(name: TypeName, composite: bool, notNull: bool, elem: Option<PgType>)

  function JsName(reg: seq<BasicType>, t: PgType): string
  {
    if t.elem.Some? then JsName(reg, t.elem.value) + "[]"
    else if t.composite then Camelcase(t.name).value
    else match LastMatch(reg, t.name)
      case Some(b) => b.jsname
      case None => t.name
  }

  function JsSerializer(reg: seq<BasicType>, t: PgType): string
  {
    if t.elem.Some? then JsSerializer(reg, t.elem.value) + ".array"
    else if t.composite then "s.embed(() => " + JsName(reg, t) + ")"
    else match LastMatch(reg, t.name)
      case Some(b) => b.serializer
      case None => "s.pgts_unknown_type__" + t.name
  }

  function JsTypeNameExp(reg: seq<BasicType>, t: PgType): string
  {
    JsName(reg, t) + (if t.notNull then "" else " | null")
  }

  /** The number of array levels around a type. */
  function Depth(t: PgType): nat
  {
    if t.elem.Some? then 1 + Depth(t.elem.value) else 0
  }

  /** The element type under every array level. */
  function Base(t: PgType): (b: PgType)
    ensures b.elem.None?
  {
    if t.elem.Some? then Base(t.elem.value) else t
  }

  function Repeat(s: string, n: nat): string
  {
    if n == 0 then "" else Repeat(s, n - 1) + s
  }

  /** Each array level adds `[]` to the name and `.array` to the serializer of its base type. */
  lemma {:induction false} ArrayLevels(reg: seq<BasicType>, t: PgType)
    ensures JsName(reg, t) == JsName(reg, Base(t)) + Repeat("[]", Depth(t))
    ensures JsSerializer(reg, t) == JsSerializer(reg, Base(t)) + Repeat(".array", Depth(t))
  {
    if t.elem.Some? {
      ArrayLevels(reg, t.elem.value);
      assert JsName(reg, Base(t)) + Repeat("[]", Depth(t)) ==
        (JsName(reg, Base(t)) + Repeat("[]", Depth(t) - 1)) + "[]";
      assert JsSerializer(reg, Base(t)) + Repeat(".array", Depth(t)) ==
        (JsSerializer(reg, Base(t)) + Repeat(".array", Depth(t) - 1)) + ".array";
    }
  }

  /** A composite base type is embedded by its camel-cased name; so is every array of it. */
  lemma CompositeSerializer(reg: seq<BasicType>, t: PgType)
    requires Base(t).composite
    ensures JsSerializer(reg, t) ==
      "s.embed(() => " + Camelcase(Base(t).name).value + ")" + Repeat(".array", Depth(t))
  {
    ArrayLevels(reg, t);
  }

  /** A base type no registration accepts keeps its name and gets the unknown-type serializer. */
  lemma UnknownBaseType(reg: seq<BasicType>, t: PgType)
    requires !Base(t).composite && LastMatch(reg, Base(t).name).None?
    ensures JsName(reg, t) == Base(t).name + Repeat("[]", Depth(t))
    ensures JsSerializer(reg, t) == "s.pgts_unknown_type__" + Base(t).name + Repeat(".array", Depth(t))
  {
    ArrayLevels(reg, t);
  }

  /** A registered base type takes its TypeScript name and serializer from the same registration. */
  lemma RegisteredBaseType(reg: seq<BasicType>, t: PgType)
    requires !Base(t).composite && LastMatch(reg, Base(t).name).Some?
    ensures var b := LastMatch(reg, Base(t).name).value;
      JsName(reg, t) == b.jsname + Repeat("[]", Depth(t)) &&
      JsSerializer(reg, t) == b.serializer + Repeat(".array", Depth(t))
  {
    ArrayLevels(reg, t);
  }

  /** `jsTypeNameExp` is the TypeScript name, widened by ` | null` unless the type is declared not null. */
  lemma NullableTypeName(reg: seq<BasicType>, t: PgType)
    ensures StartsWith(JsTypeNameExp(reg, t), JsName(reg, t))
    ensures t.notNull <==> JsTypeNameExp(reg, t) == JsName(reg, t)
    ensures !t.notNull ==> EndsWith(JsTypeNameExp(reg, t), " | null")
  {
    var n := JsName(reg, t);
    var e := JsTypeNameExp(reg, t);
    assert e[..|n|] == n;
    if !t.notNull {
      assert e[|e| - 7..] == " | null";
    }
  }

  // ---------------------------------------------------------------------------
  // PgtsColumn.defaultExp

  /** A column: its type, `!attnotnull`, whether it is in the primary key, and its default expression. */
  datatype Column = Column(ty: PgType, isNullable: bool, isPrimary: bool, def: Option<string>)

  /** The text of a `'…'::text` default: the cast and the outer characters dropped, `''` collapsed to `'`. */
  function TextOfDefault(def: string): string
    requires EndsWith(def, "::text")
  {
    Undouble(StripEnds(def[..|def| - 6]), '\'')
  }

  /** `defaultExp`, with `quote` applied to the text of a `'…'::text` default before it is put between `'`. */
  function DefaultExpWith(reg: seq<BasicType>, c: Column, quote: string -> string): string
  {
    if c.ty.elem.Some? then "[]"
    else if c.ty.composite then "new " + JsName(reg, c.ty) + "()"
    else if c.isNullable then "null"
    else if c.def.None? && !c.isPrimary && LastMatch(reg, c.ty.name).Some? then LastMatch(reg, c.ty.name).value.defaultExp
    else if c.def.Some? && EndsWith(c.def.value, "::text") then "'" + quote(TextOfDefault(c.def.value)) + "'"
    else if c.def.Some? && |c.def.value| > 0 && IsDigit(c.def.value[0]) then c.def.value
    else "undefined! /* " + c.ty.name + " */ " + (if c.def.Some? then "/* default: " + c.def.value + " */" else "")
  }

  /** `defaultExp` as written: the text is put between single quotes as it is. */
  function DefaultExpAsWritten(reg: seq<BasicType>, c: Column): string
  {
    DefaultExpWith(reg, c, t => t)
  }

  /** `defaultExp` with the text escaped as the body of a single-quoted literal. */
  function DefaultExp(reg: seq<BasicType>, c: Column): string
  {
    DefaultExpWith(reg, c, t => EncodeLiteralBody(t, '\''))
  }

  /** Precedence: arrays, then composites, then nullable columns, then the registered default. */
  lemma DefaultPrecedence(reg: seq<BasicType>, c: Column)
    ensures c.ty.elem.Some? ==> DefaultExp(reg, c) == "[]"
    ensures c.ty.elem.None? && c.ty.composite ==>
      DefaultExp(reg, c) == "new " + Camelcase(c.ty.name).value + "()"
    ensures c.ty.elem.None? && !c.ty.composite && c.isNullable ==> DefaultExp(reg, c) == "null"
    ensures (c.ty.elem.None? && !c.ty.composite && !c.isNullable && c.def.None? && !c.isPrimary &&
             LastMatch(reg, c.ty.name).Some?) ==>
      DefaultExp(reg, c) == LastMatch(reg, c.ty.name).value.defaultExp
  {
  }

  /** A default the first digit of which is a digit is copied as it is, unless it ends in `::text`. */
  lemma NumericDefault(reg: seq<BasicType>, c: Column, d: string)
    requires c.ty.elem.None? && !c.ty.composite && !c.isNullable
    requires c.def == Some(d) && |d| > 0 && IsDigit(d[0]) && !EndsWith(d, "::text")
    ensures DefaultExp(reg, c) == d
  {
  }

  /** With neither a default nor a registration, the initialiser is a typed `undefined!`. */
  lemma MissingDefault(reg: seq<BasicType>, c: Column)
    requires c.ty.elem.None? && !c.ty.composite && !c.isNullable && c.def.None?
    requires c.isPrimary || LastMatch(reg, c.ty.name).None?
    ensures DefaultExp(reg, c) == "undefined! /* " + c.ty.name + " */ "
  {
  }

  lemma TextOfLiteral(t: string)
    ensures EndsWith(PgtsNaming.TextLiteralDefault(t), "::text")
    ensures TextOfDefault(PgtsNaming.TextLiteralDefault(t)) == t
  {
    var d := PgtsNaming.TextLiteralDefault(t);
    var body := d[..|d| - 6];
    assert body == "'" + Double(t, '\'') + "'";
    assert StripEnds(body) == Double(t, '\'');
    UndoubleDouble(t, '\'');
  }

  /** A text default of a plain non-null column becomes a single-quoted literal denoting exactly the text. */
  lemma TextDefaultLiteral(reg: seq<BasicType>, c: Column, t: string)
    requires c.ty.elem.None? && !c.ty.composite && !c.isNullable
    requires c.def == Some(PgtsNaming.TextLiteralDefault(t))
    ensures DecodeLiteral(DefaultExp(reg, c), '\'') == Some(t)
  {
    TextOfLiteral(t);
    assert DefaultExp(reg, c) == "'" + EncodeLiteralBody(t, '\'') + "'";
    QuotedLiteralDecodes(t, '\'');
  }

  /** As written, text without `'`, backslashes or line breaks still comes out right. */
  lemma TextDefaultAsWrittenPlain(reg: seq<BasicType>, c: Column, t: string)
    requires c.ty.elem.None? && !c.ty.composite && !c.isNullable
    requires c.def == Some(PgtsNaming.TextLiteralDefault(t))
    requires forall i :: 0 <= i < |t| ==> t[i] != '\'' && t[i] != '\\' && t[i] != '\n' && t[i] != '\r'
    ensures DefaultExpAsWritten(reg, c) == "'" + t + "'"
    ensures DecodeLiteral(DefaultExpAsWritten(reg, c), '\'') == Some(t)
  {
    TextOfLiteral(t);
    var lit := "'" + t + "'";
    assert lit[1..|lit| - 1] == t;
    DecodePlainLiteral(t, '\'');
  }

  /** As written, the default `'it''s'::text` yields `'it's'`, which is not a literal denoting `it's`. */
  lemma TextDefaultAsWrittenApostrophe(reg: seq<BasicType>, c: Column)
    requires c.ty.elem.None? && !c.ty.composite && !c.isNullable
    requires c.def == Some(PgtsNaming.TextLiteralDefault("it's"))
    ensures DefaultExpAsWritten(reg, c) == "'it's'"
    ensures DecodeLiteral(DefaultExpAsWritten(reg, c), '\'') == None
  {
    TextOfLiteral("it's");
    var lit := "'it's'";
    assert lit[1..|lit| - 1] == "it" + "'" + "s";
    BareQuoteBreaksLiteral("it", "s", '\'');
  }

  // ---------------------------------------------------------------------------
  // PgtsFunctionArg.escapedName

  /** `escapedName` as written: inner `"` become `\"`, nothing else is escaped. */
  function EscapedNameAsWritten(name: string): string
  {
    "\"" + ReplaceChar(name, '"', "\\\"") + "\""
  }

  /** `escapedName` with backslashes and line breaks escaped as well. */
  function EscapedName(name: string): string
  {
    "\"" + EncodeLiteralBody(name, '"') + "\""
  }

  /** The quoted name is a string literal denoting the name. */
  lemma EscapedNameDecodes(name: string)
    ensures DecodeLiteral(EscapedName(name), '"') == Some(name)
  {
    QuotedLiteralDecodes(name, '"');
  }

  lemma {:induction false} ReplaceQuoteIsEncoding(name: string)
    requires forall i :: 0 <= i < |name| ==> name[i] != '\\' && name[i] != '\n' && name[i] != '\r'
    ensures ReplaceChar(name, '"', "\\\"") == EncodeLiteralBody(name, '"')
  {
    if |name| > 0 {
      ReplaceQuoteIsEncoding(name[1..]);
    }
  }

  /** As written, names without backslashes or line breaks are quoted correctly. */
  lemma EscapedNameAsWrittenPlain(name: string)
    requires forall i :: 0 <= i < |name| ==> name[i] != '\\' && name[i] != '\n' && name[i] != '\r'
    ensures EscapedNameAsWritten(name) == EscapedName(name)
    ensures DecodeLiteral(EscapedNameAsWritten(name), '"') == Some(name)
  {
    ReplaceQuoteIsEncoding(name);
    EscapedNameDecodes(name);
  }

  /** As written, the name `a\` is quoted as `"a\"`, a literal that never ends. */
  lemma EscapedNameTrailingBackslash()
    ensures EscapedNameAsWritten("a\\") == "\"a\\\""
    ensures DecodeLiteral(EscapedNameAsWritten("a\\"), '"') == None
  {
    var lit := "\"a\\\"";
    assert ReplaceChar("a\\", '"', "\\\"") == "a\\";
    assert lit[1..|lit| - 1] == "a\\";
  }

  // ---------------------------------------------------------------------------
  // PgtsFunction

  /** The `pg_proc` columns the constructor reads. */
  datatype Proc = Proc(
    returnType: int,                         // prorettype
    allArgTypes: Option<seq<int>>,           // proallargtypes
    argTypes: Option<seq<int>>,              // proargtypes
    argNames: Option<seq<Option<string>>>,   // proargnames
    argModes: Option<seq<char>>)             // proargmodes

  /** An argument: its name and its type, absent when the oid is not a known type. */
  datatype FunctionArg = FunctionArg(name: string, ty: Option<PgType>)

  /** `PgtsType.map.get(oid)`. */
  function TypeOf(types: map<int, PgType>, oid: int): Option<PgType>
  {
    if oid in types then Some(types[oid]) else None
  }

  /** `proallargtypes ?? proargtypes`, no arguments when both are null. */
  function ArgTypes(p: Proc): seq<int>
  {
    match p.allArgTypes
    case Some(a) => a
    case None => match p.argTypes case Some(a) => a case None => []
  }

  /** `proargnames?.[i] ?? "$" + (i + 1)`. */
  function ArgName(p: Proc, i: nat): string
  {
    if p.argNames.Some? && i < |p.argNames.value| && p.argNames.value[i].Some? then p.argNames.value[i].value
    else "$" + IntToString(i + 1)
  }

  /** `proargmodes?.[i] === "t"`. */
  predicate IsTableMode(p: Proc, i: nat)
  {
    p.argModes.Some? && i < |p.argModes.value| && p.argModes.value[i] == 't'
  }

  /** The first of the `n` first arguments in TABLE mode, or -1. */
  function TableStart(p: Proc, n: nat): (r: int)
    ensures -1 <= r < n
    ensures r >= 0 ==> IsTableMode(p, r) && forall j :: 0 <= j < r ==> !IsTableMode(p, j)
    ensures r == -1 <==> forall j :: 0 <= j < n ==> !IsTableMode(p, j)
  {
    if n == 0 then -1
    else
      var r := TableStart(p, n - 1);
      if r >= 0 then r else if IsTableMode(p, n - 1) then n - 1 else -1
  }

  datatype Signature = Signature(all: seq<FunctionArg>, args: seq<FunctionArg>, recordArgs: seq<FunctionArg>)

  function AllArgs(p: Proc, types: map<int, PgType>): (all: seq<FunctionArg>)
    ensures |all| == |ArgTypes(p)|
  {
    var ts := ArgTypes(p);
    seq(|ts|, i requires 0 <= i < |ts| => FunctionArg(ArgName(p, i), TypeOf(types, ts[i])))
  }

  /** The first `i + 1` arguments are the first `i` and argument `i`. */
  lemma AllArgsStep(p: Proc, types: map<int, PgType>, i: nat)
    requires i < |ArgTypes(p)|
    ensures AllArgs(p, types)[..i + 1] ==
            AllArgs(p, types)[..i] + [FunctionArg(ArgName(p, i), TypeOf(types, ArgTypes(p)[i]))]
  {
    var all := AllArgs(p, types);
    assert all[i] == FunctionArg(ArgName(p, i), TypeOf(types, ArgTypes(p)[i]));
    assert all[..i + 1] == all[..i] + [all[i]];
  }

  /**
   * The arguments of a function: all of them, and their split into the input arguments
   * before the first TABLE argument and the record columns from it on.
   */
  function SignatureOf(p: Proc, types: map<int, PgType>): (s: Signature)
    ensures |s.all| == |ArgTypes(p)|
    ensures forall i :: 0 <= i < |s.all| ==>
      s.all[i] == FunctionArg(ArgName(p, i), TypeOf(types, ArgTypes(p)[i]))
    ensures s.args + s.recordArgs == s.all
    ensures s.recordArgs == [] <==> forall i :: 0 <= i < |s.all| ==> !IsTableMode(p, i)
    ensures s.recordArgs != [] ==>
      IsTableMode(p, |s.args|) && forall i :: 0 <= i < |s.args| ==> !IsTableMode(p, i)
  {
    var all := AllArgs(p, types);
    var k := TableStart(p, |all|);
    if k == -1 then Signature(all, all, [])
    else
      assert all[..k] + all[k..] == all;
      Signature(all, all[..k], all[k..])
  }

  /** `escapedName`, as written or with the escaping the literal needs. */
  function Quoted(name: string, asWritten: bool): string
  {
    if asWritten then EscapedNameAsWritten(name) else EscapedName(name)
  }

  /** A record member `"name": Type`, absent when the argument's type is unknown. */
  function Member(reg: seq<BasicType>, a: FunctionArg, asWritten: bool): Option<string>
  {
    match a.ty
    case None => None
    case Some(t) => Some(Quoted(a.name, asWritten) + ": " + JsTypeNameExp(reg, t))
  }

  function Members(reg: seq<BasicType>, rs: seq<FunctionArg>, asWritten: bool): (r: Option<seq<string>>)
    ensures r.Some? <==> forall i :: 0 <= i < |rs| ==> rs[i].ty.Some?
    ensures r.Some? ==>
      |r.value| == |rs| && forall i :: 0 <= i < |rs| ==> Some(r.value[i]) == Member(reg, rs[i], asWritten)
  {
    if |rs| == 0 then Some([])
    else
      match Members(reg, rs[1..], asWritten)
      case None => None
      case Some(tail) => if rs[0].ty.None? then None else Some([Member(reg, rs[0], asWritten).value] + tail)
  }

  /** A name without backslashes or line breaks. */
  predicate PlainName(name: string)
  {
    forall i :: 0 <= i < |name| ==> name[i] != '\\' && name[i] != '\n' && name[i] != '\r'
  }

  /** With plain names, the record members come out the same as written and corrected. */
  lemma {:induction false} MembersAsWrittenPlain(reg: seq<BasicType>, rs: seq<FunctionArg>)
    requires forall i :: 0 <= i < |rs| ==> PlainName(rs[i].name)
    ensures Members(reg, rs, true) == Members(reg, rs, false)
  {
    if |rs| > 0 {
      MembersAsWrittenPlain(reg, rs[1..]);
      EscapedNameAsWrittenPlain(rs[0].name);
    }
  }

  /**
   * Every corrected record member is a string literal that reads back as the column's
   * name, then `: ` and the column's type.
   */
  lemma RecordMembersRead(reg: seq<BasicType>, rs: seq<FunctionArg>, i: nat)
    requires Members(reg, rs, false).Some? && i < |rs|
    ensures exists q :: Members(reg, rs, false).value[i] == q + ": " + JsTypeNameExp(reg, rs[i].ty.value) &&
                        DecodeLiteral(q, '"') == Some(rs[i].name)
  {
    EscapedNameDecodes(rs[i].name);
    assert Members(reg, rs, false).value[i] == EscapedName(rs[i].name) + ": " + JsTypeNameExp(reg, rs[i].ty.value);
  }

  class PgtsFunction {
    const proc: Proc
    const returnType: Option<PgType>
    var allArgs: seq<FunctionArg>
    var args: seq<FunctionArg>
    var recordArgs: seq<FunctionArg>

    constructor (proc: Proc, types: map<int, PgType>)
      ensures this.proc == proc && returnType == TypeOf(types, proc.returnType)
      ensures Signature(allArgs, args, recordArgs) == SignatureOf(proc, types)
    {
      this.proc := proc;
      returnType := TypeOf(types, proc.returnType);
      var all: seq<FunctionArg> := [];
      var retIdx := -1;
      var argtypes := if proc.allArgTypes.Some? then proc.allArgTypes else proc.argTypes;
      if argtypes.Some? {
        var ts := argtypes.value;
        assert ts == ArgTypes(proc);
        var i := 0;
        while i < |ts|
          invariant 0 <= i <= |ts|
          invariant all == AllArgs(proc, types)[..i]
          invariant retIdx == TableStart(proc, i)
        {
          var name := if proc.argNames.Some? && i < |proc.argNames.value| && proc.argNames.value[i].Some?
            then proc.argNames.value[i].value else "$" + IntToString(i + 1);
          var ty := if ts[i] in types then Some(types[ts[i]]) else None;
          var isTable := proc.argModes.Some? && i < |proc.argModes.value| && proc.argModes.value[i] == 't';
          if isTable && retIdx == -1 {
            retIdx := i;
          }
          assert name == ArgName(proc, i) && ty == TypeOf(types, ts[i]);
          AllArgsStep(proc, types, i);
          all := all + [FunctionArg(name, ty)];
          i := i + 1;
        }
      }
      assert all == AllArgs(proc, types);
      allArgs := all;
      args := all;
      recordArgs := [];
      if retIdx > -1 {
        args := all[..retIdx];
        recordArgs := all[retIdx..];
      }
    }

    /**
     * `returnTypeExp`: a record type lists its record columns; any other type is its
     * TypeScript name. `None` where the source reads a property of an unknown type.
     * `asWritten` selects `escapedName` as written for the column names.
     */
    function ReturnTypeExp(reg: seq<BasicType>, asWritten: bool): (r: Option<string>)
      reads this
      ensures r.Some? <==>
        (returnType.Some? &&
         (returnType.value.name == "record" ==> forall i :: 0 <= i < |recordArgs| ==> recordArgs[i].ty.Some?))
      ensures r.Some? && returnType.value.name != "record" ==> r.value == JsName(reg, returnType.value)
      ensures r.Some? && returnType.value.name == "record" ==>
        r.value == "{" + Join(Members(reg, recordArgs, asWritten).value, ", ") + "}"
    {
      match returnType
      case None => None
      case Some(t) =>
        if t.name == "record" then
          match Members(reg, recordArgs, asWritten)
          case None => None
          case Some(ms) => Some("{" + Join(ms, ", ") + "}")
        else Some(JsName(reg, t))
    }
  }

  /**
   * The as-written and corrected `returnTypeExp` agree unless a record column's name
   * holds a backslash or a line break.
   */
  lemma ReturnTypeExpAsWrittenPlain(f: PgtsFunction, reg: seq<BasicType>)
    requires forall i :: 0 <= i < |f.recordArgs| ==> PlainName(f.recordArgs[i].name)
    ensures f.ReturnTypeExp(reg, true) == f.ReturnTypeExp(reg, false)
  {
    MembersAsWrittenPlain(reg, f.recordArgs);
  }

  /** A function returning a record with no record columns is typed `{}`. */
  lemma EmptyRecordType(f: PgtsFunction, reg: seq<BasicType>, asWritten: bool)
    requires f.returnType.Some? && f.returnType.value.name == "record" && f.recordArgs == []
    ensures f.ReturnTypeExp(reg, asWritten) == Some("{}")
  {
    assert Members(reg, f.recordArgs, asWritten) == Some([]);
    assert Join([], ", ") == "";
    assert "{" + "" + "}" == "{}";
  }

  /** A function returning a record with no TABLE argument is typed `{}`. */
  lemma RecordWithoutColumns(reg: seq<BasicType>, p: Proc, types: map<int, PgType>)
    requires forall i :: 0 <= i < |ArgTypes(p)| ==> !IsTableMode(p, i)
    ensures SignatureOf(p, types).recordArgs == []
    ensures SignatureOf(p, types).args == SignatureOf(p, types).all
  {
  }

  // ---------------------------------------------------------------------------
  // PgtsClass.primary_keys / hasPrimaryKey

  /** `columns.filter(c => c.isPrimary)`. */
  function PrimaryKeys(cols: seq<Column>): (r: seq<Column>)
    ensures |r| <= |cols|
    ensures forall c :: c in r <==> c in cols && c.isPrimary
  {
    if |cols| == 0 then []
    else (if cols[0].isPrimary then [cols[0]] else []) + PrimaryKeys(cols[1..])
  }

  /**
   * `filter` keeps the columns in their order: one column is kept iff it is a primary
   * key, and filtering a concatenation concatenates the filtered parts. Together these
   * fix `PrimaryKeys` on every sequence, order included.
   */
  lemma {:induction false} PrimaryKeysKeepOrder(a: seq<Column>, b: seq<Column>, c: Column)
    ensures PrimaryKeys([c]) == if c.isPrimary then [c] else []
    ensures PrimaryKeys(a + b) == PrimaryKeys(a) + PrimaryKeys(b)
  {
    assert [c][1..] == [];
    if |a| == 0 {
      assert a + b == b;
    } else {
      assert (a + b)[1..] == a[1..] + b;
      PrimaryKeysKeepOrder(a[1..], b, c);
    }
  }

  /** `columns.some(c => c.isPrimary)`. */
  function HasPrimaryKey(cols: seq<Column>): (b: bool)
    ensures b <==> exists i :: 0 <= i < |cols| && cols[i].isPrimary
  {
    if |cols| == 0 then false
    else
      assert forall i :: 1 <= i < |cols| ==> cols[i] == cols[1..][i - 1];
      cols[0].isPrimary || HasPrimaryKey(cols[1..])
  }

  /** A class has a primary key exactly when its primary-key column list is not empty. */
  lemma HasPrimaryKeyIffPrimaryKeys(cols: seq<Column>)
    ensures HasPrimaryKey(cols) <==> PrimaryKeys(cols) != []
  {
    if HasPrimaryKey(cols) {
      var i :| 0 <= i < |cols| && cols[i].isPrimary;
      assert cols[i] in PrimaryKeys(cols);
    }
  }
}
