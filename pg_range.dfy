/**
 * PostgreSQL range values of src/types/range.ts: a `PgRange` holds two endpoints and a
 * two-character bounds description such as "[)", where '[' and ']' make an endpoint
 * inclusive. Endpoints are integers or the infinities JavaScript uses for an unbounded
 * side; Date endpoints are not modelled.
 */
module PgRange {
  import opened Wrappers
  import opened Strings

  /** A numeric endpoint: `-Infinity`, an integer, or `Infinity`. */
  datatype Endpoint = NegInf | Num(n: int) | PosInf

  /** `a.valueOf() < b.valueOf()`. */
  predicate Below(a: Endpoint, b: Endpoint)
  {
    match (a, b)
    case (NegInf, NegInf) => false
    case (NegInf, _) => true
    case (Num(x), Num(y)) => x < y
    case (Num(_), PosInf) => true
    case (_, _) => false
  }

  /** `a.valueOf() <= b.valueOf()`. */
  predicate AtMost(a: Endpoint, b: Endpoint)
  {
    a == b || Below(a, b)
  }

  datatype Range = Range(start: Endpoint, end: Endpoint, bounds: string)

  /** The check of the constructor: only the first two characters of `bounds` count. */
  predicate ValidBounds(bounds: string)
  {
    |bounds| >= 2 && (bounds[0] == '[' || bounds[0] == '(') && (bounds[1] == ']' || bounds[1] == ')')
  }

  /** `new PgRange(start, end, bounds)`: "[]" when `bounds` is undefined; throws on bad bounds. */
  function MakeRange(start: Endpoint, end: Endpoint, bounds: Option<string>): (r: Result<Range, string>)
    ensures r.Ok? <==> ValidBounds(if bounds.Some? then bounds.value else "[]")
    ensures r.Ok? ==> r.value.start == start && r.value.end == end
    ensures r.Ok? && bounds.None? ==> r.value.bounds == "[]"
  {
    var b := if bounds.Some? then bounds.value else "[]";
    if ValidBounds(b) then Ok(Range(start, end, b)) else Err("wrong bounds description")
  }

  predicate LowerInclusive(r: Range)
  {
    |r.bounds| > 0 && r.bounds[0] == '['
  }

  predicate UpperInclusive(r: Range)
  {
    |r.bounds| > 1 && r.bounds[1] == ']'
  }

  /** The argument of `includes` and `clamp`: a value or another range. */
  datatype Arg = Point(x: Endpoint) | Span(other: Range)

  /** `includes(num)` for a value: above the start (or at it) and below the end (or at it). */
  predicate IncludesPoint(r: Range, x: Endpoint)
  {
    (if LowerInclusive(r) then AtMost(r.start, x) else Below(r.start, x)) &&
    (if UpperInclusive(r) then AtMost(x, r.end) else Below(x, r.end))
  }

  /** `includes(num)`; for a range, both of its endpoints must be included. */
  predicate Includes(r: Range, a: Arg)
  {
    match a
    case Point(x) => IncludesPoint(r, x)
    case Span(o) => IncludesPoint(r, o.start) && IncludesPoint(r, o.end)
  }

  /** `overlaps(range)`: this range includes the other's start or its end. */
  predicate Overlaps(r: Range, o: Range)
  {
    IncludesPoint(r, o.start) || IncludesPoint(r, o.end)
  }

  /** `clamp(num)`: throws for a range. */
  function Clamp(r: Range, a: Arg): (c: Result<Endpoint, string>)
    ensures c.Ok? <==> a.Point?
  {
    match a
    case Span(_) => Err("not implemented")
    case Point(x) => Ok(if Below(x, r.start) then r.start else if Below(r.end, x) then r.end else x)
  }

  // ---------------------------------------------------------------------------
  // properties of the comparisons

  lemma BelowTotal(a: Endpoint, b: Endpoint)
    ensures Below(a, b) || a == b || Below(b, a)
    ensures !(Below(a, b) && Below(b, a))
  {
  }

  /** Each side of a constructed range is inclusive exactly when its bounds character says so. */
  lemma InclusiveBounds(start: Endpoint, end: Endpoint, b: string)
    requires MakeRange(start, end, Some(b)).Ok?
    ensures var r := MakeRange(start, end, Some(b)).value;
            (LowerInclusive(r) <==> b[0] == '[') && (!LowerInclusive(r) <==> b[0] == '(')
            && (UpperInclusive(r) <==> b[1] == ']') && (!UpperInclusive(r) <==> b[1] == ')')
  {
  }

  /** A closed range includes its own endpoints; an open one includes neither. */
  lemma EndpointsIncluded(r: Range)
    requires ValidBounds(r.bounds) && AtMost(r.start, r.end)
    ensures IncludesPoint(r, r.start) <==> LowerInclusive(r) && (UpperInclusive(r) || r.start != r.end)
    ensures IncludesPoint(r, r.end) <==> UpperInclusive(r) && (LowerInclusive(r) || r.start != r.end)
  {
  }

  /** A range includes every range nested inside it with the same bounds. */
  lemma IncludesNested(r: Range, o: Range)
    requires r.bounds == o.bounds && AtMost(r.start, o.start) && AtMost(o.end, r.end)
    requires IncludesPoint(o, o.start) && IncludesPoint(o, o.end)
    ensures Includes(r, Span(o))
  {
  }

  /**
   * `overlaps` is not symmetric: a range that swallows another overlaps nothing of it
   * when seen from the inside.
   */
  lemma OverlapsNotSymmetric()
    ensures var big := Range(Num(0), Num(10), "[]");
            var small := Range(Num(4), Num(5), "[]");
            Overlaps(big, small) && !Overlaps(small, big)
  {
  }

  /** A clamped value lies between the endpoints, and clamping changes only values outside. */
  lemma ClampBetween(r: Range, x: Endpoint)
    requires AtMost(r.start, r.end)
    ensures var c := Clamp(r, Point(x)).value;
            AtMost(r.start, c) && AtMost(c, r.end)
            && (c == x <==> AtMost(r.start, x) && AtMost(x, r.end))
  {
  }

  /** Clamping twice is clamping once. */
  lemma ClampIdempotent(r: Range, x: Endpoint)
    requires AtMost(r.start, r.end)
    ensures Clamp(r, Point(Clamp(r, Point(x)).value)) == Clamp(r, Point(x))
  {
  }

  /** Clamping ignores the bounds: into a closed range the result is always included. */
  lemma ClampIncludedWhenClosed(r: Range, x: Endpoint)
    requires AtMost(r.start, r.end) && LowerInclusive(r) && UpperInclusive(r)
    ensures IncludesPoint(r, Clamp(r, Point(x)).value)
  {
  }

  /** Into a half-open range, clamping a value past the end gives the excluded end. */
  lemma ClampIgnoresBounds(a: int, b: int)
    requires a < b
    ensures var r := Range(Num(a), Num(b), "[)");
            Clamp(r, Point(Num(b + 1))) == Ok(Num(b)) && !IncludesPoint(r, Num(b))
  {
  }

  // ---------------------------------------------------------------------------
  // the text form

  /** `${x}` for an endpoint, as `serialize_local` writes it. */
  function EndpointTextAsWritten(x: Endpoint): string
  {
    match x
    case NegInf => "-Infinity"
    case Num(n) => IntToString(n)
    case PosInf => "Infinity"
  }

  /** The text of an endpoint, with the infinities written as the empty side. */
  function EndpointText(x: Endpoint): string
  {
    match x
    case Num(n) => IntToString(n)
    case _ => ""
  }

  /** `serialize_local(r)` as written: `bounds[0] start , end bounds[1]`. */
  function SerializeAsWritten(r: Range): string
    requires |r.bounds| >= 2
  {
    [r.bounds[0]] + EndpointTextAsWritten(r.start) + "," + EndpointTextAsWritten(r.end) + [r.bounds[1]]
  }

  /** `serialize_local(r)` with an unbounded side left empty. */
  function Serialize(r: Range): string
    requires |r.bounds| >= 2
  {
    [r.bounds[0]] + EndpointText(r.start) + "," + EndpointText(r.end) + [r.bounds[1]]
  }

  /** What `deserialize_to_local` is given. */
  datatype Input = Text(s: string) | Object(start: Endpoint, end: Endpoint, bounds: Option<string>) | Other

  /**
   * One side of the interior: empty (or missing) is the given infinity, a quoted side is
   * a Date, anything else goes through `JSON.parse`.
   */
  function ReadSide(side: Option<string>, empty: Endpoint): Result<Endpoint, string>
  {
    if side.None? || side.value == "" then Ok(empty)
    else if side.value[0] == '"' then Err("Date endpoints are not modelled")
    else
      var n := ParseJsonInteger(side.value);
      if n.Some? then Ok(Num(n.value)) else Err("JSON.parse")
  }

  /**
   * `deserialize_to_local(r)`: the bounds are the text's first and last characters
   * ("undefinedundefined" for the empty text), and the interior is split on ','.
   */
  function Deserialize(input: Input): (r: Result<Range, string>)
    ensures input.Other? ==> r.Err?
    ensures r.Ok? ==> ValidBounds(r.value.bounds)
  {
    match input
    case Other => Err("could not deserialize")
    case Object(start, end, bounds) => MakeRange(start, end, bounds)
    case Text(s) =>
      var bounds := if |s| == 0 then "undefinedundefined" else [s[0], s[|s| - 1]];
      var parts := Split(StripEnds(s), ',');
      var start := ReadSide(Some(parts[0]), NegInf);
      var end := ReadSide(if |parts| > 1 then Some(parts[1]) else None, PosInf);
      if start.Err? then Err(start.error)
      else if end.Err? then Err(end.error)
      else MakeRange(start.value, end.value, Some(bounds))
  }

  lemma EndpointTextReads(x: Endpoint, empty: Endpoint)
    requires x.Num? || x == empty
    ensures ',' !in EndpointText(x)
    ensures ReadSide(Some(EndpointText(x)), empty) == Ok(x)
  {
    if x.Num? {
      IntToStringParses(x.n);
      NoCommaInInteger(x.n);
      var t := IntToString(x.n);
      assert t[0] == '-' || IsDigit(t[0]);
    }
  }

  /** A text framed by two bound characters around `a,b` reads its sides from `a` and `b`. */
  lemma DeserializeFramed(c0: char, a: string, b: string, c1: char, x: Endpoint, y: Endpoint)
    requires ',' !in a && ',' !in b
    requires ReadSide(Some(a), NegInf) == Ok(x) && ReadSide(Some(b), PosInf) == Ok(y)
    ensures Deserialize(Text([c0] + a + "," + b + [c1])) == MakeRange(x, y, Some([c0, c1]))
  {
    var s := [c0] + a + "," + b + [c1];
    var m := a + [','] + b;
    assert s == [c0] + m + [c1];
    assert StripEnds(s) == m;
    assert s[0] == c0 && s[|s| - 1] == c1;
    SplitAtDelimiter(a, ',', b);
    SplitNoDelimiter(b, ',');
    assert Split(StripEnds(s), ',') == [a, b];
  }

  /**
   * Serializing a range and reading it back gives the range, when the bounds are exactly
   * two characters and an infinite side is on its own end.
   */
  lemma DeserializeSerialize(r: Range)
    requires ValidBounds(r.bounds) && |r.bounds| == 2
    requires r.start != PosInf && r.end != NegInf
    ensures Deserialize(Text(Serialize(r))) == Ok(r)
  {
    EndpointTextReads(r.start, NegInf);
    EndpointTextReads(r.end, PosInf);
    DeserializeFramed(r.bounds[0], EndpointText(r.start), EndpointText(r.end), r.bounds[1], r.start, r.end);
    assert [r.bounds[0], r.bounds[1]] == r.bounds;
  }

  /** `isFinite`: both endpoints are numbers. */
  predicate IsFinite(r: Range)
  {
    r.start.Num? && r.end.Num?
  }

  /** A finite range is written the same either way, so it reads back even as written. */
  lemma FiniteRoundTripsAsWritten(r: Range)
    requires ValidBounds(r.bounds) && |r.bounds| == 2 && IsFinite(r)
    ensures SerializeAsWritten(r) == Serialize(r)
    ensures Deserialize(Text(SerializeAsWritten(r))) == Ok(r)
  {
    DeserializeSerialize(r);
  }

  /**
   * As written an unbounded side is written "-Infinity" or "Infinity", which
   * `JSON.parse` rejects, so reading back a range deserialized from "[,)" fails.
   */
  lemma UnboundedDoesNotRoundTrip(b: int)
    ensures Deserialize(Text("[," + IntToString(b) + ")")) == Ok(Range(NegInf, Num(b), "[)"))
    ensures Deserialize(Text(SerializeAsWritten(Range(NegInf, Num(b), "[)")))).Err?
  {
    UnboundedStartReads(b);
    InfinityRejected(b);
  }

  lemma UnboundedStartReads(b: int)
    ensures Deserialize(Text("[," + IntToString(b) + ")")) == Ok(Range(NegInf, Num(b), "[)"))
  {
    var t := IntToString(b);
    assert "[," + t + ")" == ['['] + "" + "," + t + [')'];
    EndpointTextReads(Num(b), PosInf);
    EndpointTextReads(NegInf, NegInf);
    DeserializeFramed('[', "", t, ')', NegInf, Num(b));
  }

  lemma InfinityRejected(b: int)
    ensures Deserialize(Text(SerializeAsWritten(Range(NegInf, Num(b), "[)")))).Err?
  {
    var t := IntToString(b);
    var inf := "-Infinity";
    var w := SerializeAsWritten(Range(NegInf, Num(b), "[)"));
    assert w == "[" + inf + "," + t + ")";
    assert StripEnds(w) == inf + [','] + t;
    SplitAtDelimiter(inf, ',', t);
    assert inf[0] != '"';
    assert !IsJsonInteger(inf) by {
      assert inf[1..][0] == 'I';
    }
  }
}
