/**
 * The field serializers of src/serializers.ts: a `Serializer` pairs a serialize and a
 * deserialize transform with the property it is bound to; `str`, `num`, `bool`, `json`
 * and `hstore` are the transforms the generated models use.
 */
module FieldSerializers {
  import opened Wrappers
  import opened Strings

  /** A JavaScript value as the transforms see it; numbers are integers or NaN. */
  datatype Value =
    | Null
    | Undefined
    | Bool(b: bool)
    | Num(n: int)
    | NaN
    | Str(s: string)
    | MapOf(entries: seq<(string, string)>)  // a Map<string, string>, in insertion order
    | Texts(items: seq<string>)              // an array of strings
    | Obj                                    // any other object

  /** `v == null`. */
  predicate IsNullish(v: Value)
  {
    v.Null? || v.Undefined?
  }

  // ---------------------------------------------------------------------------
  // the conversions String(v), Number(v) and !!v

  /** `String(v)`. */
  function ToStr(v: Value): string
  {
    match v
    case Null => "null"
    case Undefined => "undefined"
    case Bool(b) => if b then "true" else "false"
    case Num(n) => IntToString(n)
    case NaN => "NaN"
    case Str(s) => s
    case MapOf(_) => "[object Map]"
    case Texts(items) => Join(items, ",")
    case Obj => "[object Object]"
  }

  /** `Number(s)` for "" and for optionally signed decimal integers; every other text is NaN here. */
  function NumberOfText(s: string): (r: Value)
    ensures r.Num? || r.NaN?
  {
    if s == "" then Num(0)
    else
      var t := if s[0] == '-' || s[0] == '+' then s[1..] else s;
      if |t| >= 1 && AllDigits(t) then Num(if s[0] == '-' then -(DigitsValue(t) as int) else DigitsValue(t))
      else NaN
  }

  /** `Number(v)`. */
  function ToNumber(v: Value): (r: Value)
    ensures r.Num? || r.NaN?
  {
    match v
    case Null => Num(0)
    case Undefined => NaN
    case Bool(b) => Num(if b then 1 else 0)
    case Num(n) => Num(n)
    case NaN => NaN
    case Str(s) => NumberOfText(s)
    case MapOf(_) => NaN
    case Texts(items) => NumberOfText(Join(items, ","))
    case Obj => NaN
  }

  /** `!!v`. */
  predicate Truthy(v: Value)
  {
    match v
    case Null => false
    case Undefined => false
    case Bool(b) => b
    case Num(n) => n != 0
    case NaN => false
    case Str(s) => s != ""
    case _ => true
  }

  /** Reading back the text of an integer gives the integer. */
  lemma NumberOfIntText(n: int)
    ensures NumberOfText(IntToString(n)) == Num(n)
  {
    var s := IntToString(n);
    if n < 0 {
      DigitsOfNat(-n);
      assert s[1..] == NatToString(-n);
    } else {
      DigitsOfNat(n);
    }
  }

  // ---------------------------------------------------------------------------
  // str, num, bool, json

  /** The `str` transform, both directions: `s == null ? s : String(s)`. */
  function StrTransform(v: Value): (r: Value)
    ensures IsNullish(v) ==> r == v
    ensures !IsNullish(v) ==> r.Str?
  {
    if IsNullish(v) then v else Str(ToStr(v))
  }

  /** The `num` transform, both directions: `n == null ? n : Number(n)`. */
  function NumTransform(v: Value): (r: Value)
    ensures IsNullish(v) ==> r == v
    ensures !IsNullish(v) ==> r.Num? || r.NaN?
  {
    if IsNullish(v) then v else ToNumber(v)
  }

  /** The `bool` transform, both directions: `b == null ? b : !!b`. */
  function BoolTransform(v: Value): (r: Value)
    ensures IsNullish(v) ==> r == v
    ensures !IsNullish(v) ==> r.Bool?
  {
    if IsNullish(v) then v else Bool(Truthy(v))
  }

  /** The `json` transform, both directions. */
  function JsonTransform(v: Value): (r: Value)
  {
    v
  }

  /** Each scalar transform maps its own results to themselves, and `json` is the identity. */
  lemma TransformsSettle(v: Value)
    ensures StrTransform(StrTransform(v)) == StrTransform(v)
    ensures NumTransform(NumTransform(v)) == NumTransform(v)
    ensures BoolTransform(BoolTransform(v)) == BoolTransform(v)
    ensures JsonTransform(JsonTransform(v)) == v
  {
  }

  /** A number written by `str` is read back by `num`. */
  lemma NumReadsStr(n: int)
    ensures NumTransform(StrTransform(Num(n))) == Num(n)
  {
    NumberOfIntText(n);
  }

  /** `bool` reads every non-empty text as true, the text "false" included. */
  lemma BoolOfText(s: string)
    ensures BoolTransform(Str(s)) == Bool(s != "")
    ensures BoolTransform(Str("false")) == Bool(true)
  {
  }

  // ---------------------------------------------------------------------------
  // hstore

  /** `"k"=>"v"` with every `"` doubled, as written. */
  function HstoreEntryAsWritten(k: string, v: string): string
  {
    "\"" + Double(k, '"') + "\"=>\"" + Double(v, '"') + "\""
  }

  /** The escape of the hstore text format: a backslash before every `"` and `\`. */
  function HstoreEscape(s: string): string
  {
    if |s| == 0 then ""
    else (if s[0] == '"' || s[0] == '\\' then ['\\', s[0]] else [s[0]]) + HstoreEscape(s[1..])
  }

  /** `"k"=>"v"` with keys and values escaped as the hstore text format reads them. */
  function HstoreEntry(k: string, v: string): string
  {
    "\"" + HstoreEscape(k) + "\"=>\"" + HstoreEscape(v) + "\""
  }

  /**
   * The hstore reading of a double-quoted item after its opening quote: `\x` stands for
   * `x`, and the first bare `"` ends the item. Gives the item and the text after it.
   */
  function ReadQuoted(s: string): Option<(string, string)>
  {
    if |s| == 0 then None
    else if s[0] == '"' then Some(("", s[1..]))
    else if s[0] == '\\' then
      if |s| < 2 then None
      else
        match ReadQuoted(s[2..])
        case None => None
        case Some(p) => Some(([s[1]] + p.0, p.1))
    else
      match ReadQuoted(s[1..])
      case None => None
      case Some(p) => Some(([s[0]] + p.0, p.1))
  }

  /** The hstore reading of one `"key"=>"value"` pair filling the whole text. */
  function ReadPair(s: string): Option<(string, string)>
  {
    if |s| == 0 || s[0] != '"' then None
    else
      match ReadQuoted(s[1..])
      case None => None
      case Some(p) =>
        if !StartsWith(p.1, "=>\"") then None
        else
          match ReadQuoted(p.1[3..])
          case None => None
          case Some(q) => if q.1 == "" then Some((p.0, q.0)) else None
  }

  lemma {:induction false} ReadEscaped(s: string, rest: string)
    ensures ReadQuoted(HstoreEscape(s) + "\"" + rest) == Some((s, rest))
  {
    if |s| == 0 {
      assert HstoreEscape(s) + "\"" + rest == "\"" + rest;
    } else {
      ReadEscaped(s[1..], rest);
      var e := HstoreEscape(s) + "\"" + rest;
      var tail := HstoreEscape(s[1..]) + "\"" + rest;
      if s[0] == '"' || s[0] == '\\' {
        assert e == ['\\', s[0]] + tail;
        assert e[2..] == tail;
      } else {
        assert e == [s[0]] + tail;
        assert e[1..] == tail;
      }
      assert [s[0]] + s[1..] == s;
    }
  }

  /** An escaped entry is read back as its key and value. */
  lemma HstoreEntryReads(k: string, v: string)
    ensures ReadPair(HstoreEntry(k, v)) == Some((k, v))
  {
    var e := HstoreEntry(k, v);
    var tail := "=>\"" + HstoreEscape(v) + "\"";
    assert e[0] == '"' && e[1..] == HstoreEscape(k) + "\"" + tail;
    ReadEscaped(k, tail);
    assert StartsWith(tail, "=>\"");
    assert tail[3..] == HstoreEscape(v) + "\"" + "";
    ReadEscaped(v, "");
  }

  lemma {:induction false} PlainEscapes(s: string)
    requires forall i :: 0 <= i < |s| ==> s[i] != '"' && s[i] != '\\'
    ensures Double(s, '"') == s && HstoreEscape(s) == s
  {
    if |s| > 0 {
      PlainEscapes(s[1..]);
      assert [s[0]] + s[1..] == s;
    }
  }

  /** As written, keys and values without `"` or `\` are written as the hstore format reads them. */
  lemma HstoreEntryAsWrittenPlain(k: string, v: string)
    requires forall i :: 0 <= i < |k| ==> k[i] != '"' && k[i] != '\\'
    requires forall i :: 0 <= i < |v| ==> v[i] != '"' && v[i] != '\\'
    ensures HstoreEntryAsWritten(k, v) == HstoreEntry(k, v)
    ensures ReadPair(HstoreEntryAsWritten(k, v)) == Some((k, v))
  {
    PlainEscapes(k);
    PlainEscapes(v);
    HstoreEntryReads(k, v);
  }

  /** As written, the key `a"b` is written `"a""b"=>"x"`, which the hstore format does not read as a pair. */
  lemma HstoreEntryAsWrittenQuote()
    ensures HstoreEntryAsWritten("a\"b", "x") == "\"a\"\"b\"=>\"x\""
    ensures ReadPair(HstoreEntryAsWritten("a\"b", "x")) == None
  {
    var k := "a\"b";
    assert Double(k[2..], '"') == "b";
    assert Double(k[1..], '"') == "\"\"b";
    assert Double(k, '"') == "a\"\"b";
    assert Double("x", '"') == "x";
    var e := "\"a\"\"b\"=>\"x\"";
    var body := e[1..];
    var rest := "\"b\"=>\"x\"";
    assert body[0] == 'a' && body[1..] == "\"" + rest;
    assert ("\"" + rest)[1..] == rest;
    assert ReadQuoted(body[1..]) == Some(("", rest));
    assert ['a'] + "" == "a";
    assert ReadQuoted(body) == Some(("a", rest));
    assert rest[..3][0] == '"';
    assert !StartsWith(rest, "=>\"");
  }

  /** The `hstore` serialize transform over an entry writer: one string per entry, in order; null stays null. */
  function HstoreSerializeWith(entry: (string, string) -> string, v: Value): Result<Value, string>
  {
    match v
    case Null => Ok(Null)
    case Undefined => Ok(Undefined)
    case MapOf(es) => Ok(Texts(seq(|es|, i requires 0 <= i < |es| => entry(es[i].0, es[i].1))))
    // the entries of an array are [index, value] pairs, and an index has no `replace`
    case Texts(items) => if |items| == 0 then Ok(Texts([])) else Err("TypeError")
    case _ => Err("TypeError")
  }

  function HstoreSerializeAsWritten(v: Value): Result<Value, string>
  {
    HstoreSerializeWith(HstoreEntryAsWritten, v)
  }

  function HstoreSerialize(v: Value): Result<Value, string>
  {
    HstoreSerializeWith(HstoreEntry, v)
  }

  /** A map is written as one pair per entry, in insertion order, each read back as that entry. */
  lemma HstoreSerializeReads(es: seq<(string, string)>)
    ensures HstoreSerialize(MapOf(es)).Ok? && HstoreSerialize(MapOf(es)).value.Texts?
    ensures |HstoreSerialize(MapOf(es)).value.items| == |es|
    ensures forall i :: 0 <= i < |es| ==> ReadPair(HstoreSerialize(MapOf(es)).value.items[i]) == Some(es[i])
  {
    forall i | 0 <= i < |es|
      ensures ReadPair(HstoreSerialize(MapOf(es)).value.items[i]) == Some(es[i])
    {
      HstoreEntryReads(es[i].0, es[i].1);
    }
  }

  /** The `hstore` deserialize transform: null for null, an empty map for everything else. */
  function HstoreDeserialize(v: Value): (r: Value)
    ensures r == Null || r == MapOf([])
    ensures r == Null <==> IsNullish(v)
  {
    if IsNullish(v) then Null else MapOf([])
  }

  /** Deserializing what `hstore` serializes loses every entry of a non-empty map. */
  lemma HstoreLosesEntries(es: seq<(string, string)>)
    requires |es| > 0
    ensures HstoreSerialize(MapOf(es)).Ok?
    ensures HstoreDeserialize(HstoreSerialize(MapOf(es)).value) != MapOf(es)
  {
  }

  // ---------------------------------------------------------------------------
  // Serializer

  /** A property key: a string or a symbol. */
  datatype Key = Named(name: string) | Symbol(id: nat)

  class FieldSerializer {
    const serialize: Value -> Result<Value, string>
    const deserialize: Value -> Result<Value, string>
    var property: Option<Key>
    var noDeser: bool
    var noSer: bool

    constructor (serialize: Value -> Result<Value, string>, deserialize: Value -> Result<Value, string>)
      ensures this.serialize == serialize && this.deserialize == deserialize
      ensures property == None && !noDeser && !noSer
    {
      this.serialize := serialize;
      this.deserialize := deserialize;
      property := None;
      noDeser := false;
      noSer := false;
    }

    /** `prop(name)`: a new serializer with the same transforms bound to `name`; this one is unchanged. */
    method Prop(name: Key) returns (s: FieldSerializer)
      ensures fresh(s)
      ensures s.serialize == serialize && s.deserialize == deserialize
      ensures s.property == Some(name) && !s.noDeser && !s.noSer
    {
      s := new FieldSerializer(serialize, deserialize);
      s.property := Some(name);
    }
  }
}
