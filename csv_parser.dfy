/**
 * The chunked CSV parser of src/csv.ts. The parser is fed the text in chunks; it reports
 * every field through a column callback and every record end through a line callback.
 * The model records the callbacks' calls, in order, as an event trace.
 *
 * The pure functions `Handled`, `Scanned` and `Ended` describe one call of
 * `handleColumn`, `parse` and `end` on a parser state; the class `CsvParser` performs the
 * same steps in place and is proved to agree with them.
 */
module CsvParser {
  import opened Wrappers
  import opened Strings

  /** A call of `col_cbk(content, col_index)` or of `line_cbk()`. */
  datatype Event = Column(content: Option<string>, index: nat) | Line

  /** The fields `col_index`, `quoted`, `in_quote`, `escaped` and `leftovers`. */
  datatype ParserState = ParserState(
    colIndex: nat, quoted: bool, inQuote: bool, escaped: bool, leftovers: Option<seq<string>>)

  /** The state `reset()` leaves, and the state of a new parser built with the defaults. */
  const Initial := ParserState(0, false, false, false, None)

  /**
   * What a call did: it returned normally or threw (a `TypeError` from `v!.slice` or
   * `v!.replace` on a null field), after emitting `events` and leaving `st`; or it never
   * returns.
   */
  datatype Outcome = Done(st: ParserState, events: seq<Event>)
                   | Threw(st: ParserState, events: seq<Event>)
                   | Loops

  /** The events `ev` emitted before the rest of a call, whose outcome is `o`. */
  function Prepend(ev: seq<Event>, o: Outcome): (r: Outcome)
    ensures r.Loops? == o.Loops? && r.Done? == o.Done?
    ensures !o.Loops? ==> r.st == o.st && r.events == ev + o.events
  {
    match o
    case Done(st, e) => Done(st, ev + e)
    case Threw(st, e) => Threw(st, ev + e)
    case Loops => Loops
  }

  lemma PrependPrepend(a: seq<Event>, b: seq<Event>, o: Outcome)
    ensures Prepend(a, Prepend(b, o)) == Prepend(a + b, o)
  {
    if !o.Loops? {
      assert a + (b + o.events) == (a + b) + o.events;
    }
  }

  /** `txt[i]`: undefined past the end. */
  function CharAt(txt: string, i: nat): Option<char>
  {
    if i < |txt| then Some(txt[i]) else None
  }

  /** The joined leftovers, "" when there are none. */
  function Pending(leftovers: Option<seq<string>>): string
  {
    if leftovers.Some? then Join(leftovers.value, "") else ""
  }

  /** The leftovers list, `[]` when it is null (`leftovers ??= []`). */
  function LeftoverList(leftovers: Option<seq<string>>): seq<string>
  {
    if leftovers.Some? then leftovers.value else []
  }

  lemma {:induction false} JoinSnoc(parts: seq<string>, p: string)
    ensures Join(parts + [p], "") == Join(parts, "") + p
  {
    if |parts| == 0 {
      assert parts + [p] == [p];
    } else if |parts| == 1 {
      assert parts + [p] == [parts[0], p];
      assert [parts[0], p][1..] == [p];
    } else {
      assert (parts + [p])[1..] == parts[1..] + [p];
      JoinSnoc(parts[1..], p);
    }
  }

  // ---------------------------------------------------------------------------
  // handleColumn

  /**
   * `handleColumn(v)`: a quoted field loses its first and last characters, an escaped
   * one has `""` collapsed to `"`, then the field is reported at the current column and
   * the column advances. Stripping or collapsing a null field throws.
   */
  function Handled(st: ParserState, v: Option<string>): (r: Outcome)
    ensures !r.Loops?
    ensures r.Threw? <==> (st.quoted || st.escaped) && v.None?
    ensures !r.st.quoted && r.st.inQuote == st.inQuote && r.st.escaped == st.escaped
    ensures r.st.leftovers == st.leftovers
    ensures r.Done? ==> r.st.colIndex == st.colIndex + 1 && |r.events| == 1
                        && r.events[0].Column? && r.events[0].index == st.colIndex
    ensures r.Done? && !st.quoted && !st.escaped ==> r.events == [Column(v, st.colIndex)]
    ensures r.Threw? ==> r.events == [] && r.st.colIndex == st.colIndex
  {
    if st.quoted && v.None? then Threw(st.(quoted := false), [])
    else
      var v1 := if st.quoted then Some(StripEnds(v.value)) else v;
      var st1 := st.(quoted := false);
      if st1.escaped && v1.None? then Threw(st1, [])
      else
        var v2 := if st1.escaped then Some(Undouble(v1.value, '"')) else v1;
        Done(st1.(colIndex := st1.colIndex + 1), [Column(v2, st1.colIndex)])
  }

  // ---------------------------------------------------------------------------
  // parse

  /**
   * A field ends: the leftovers of earlier chunks, if any, are joined in front of this
   * chunk's part and cleared, and the field is handled. `asWritten` selects the null
   * test of src/csv.ts:70, which looks only at this chunk's part; otherwise the field
   * is null exactly when the joined text is empty.
   */
  function EmitField(st: ParserState, part: string, asWritten: bool): (r: Outcome)
    ensures !r.Loops? && r.st.leftovers.None?
  {
    var v := if st.leftovers.Some? then Join(st.leftovers.value + [part], "") else part;
    var isNull := if asWritten then part == "" else v == "";
    Handled(st.(leftovers := None), if isNull then None else Some(v))
  }

  /** The outcome of one pass of the loop body outside a quote. */
  datatype Stepped = Stepped(st: ParserState, events: seq<Event>, prev: nat, threw: bool)

  /**
   * One pass of the loop body of `parse(txt)` outside a quote, reading `c = txt[i]`
   * (undefined past the end) with the current field starting at `prev`. A '"' opening
   * a field starts a quote; ',' and '\n' end the field, and '\n' also ends the line.
   * Past the end, the field is emitted and the line closed when `end_at_undefined` is
   * set, and otherwise the unfinished field is kept in `leftovers`.
   */
  function Step(st: ParserState, txt: string, i: nat, prev: nat,
                endAtUndefined: bool, asWritten: bool): (r: Stepped)
    requires prev <= i <= |txt|
    ensures r.prev <= i + 1
  {
    var c := CharAt(txt, i);
    var st1 := if c == Some('"') && i + 1 == prev + 1
               then st.(quoted := true, inQuote := true, escaped := false)
               else st;
    var ends := c == Some(',') || c == Some('\n') || (c.None? && endAtUndefined);
    var field := if ends then EmitField(st1, txt[prev..i], asWritten) else Done(st1, []);
    if field.Threw? then Stepped(field.st, field.events, prev, true)
    else
      var prev' := if ends then i + 1 else prev;
      var newline := c == Some('\n') || (c.None? && endAtUndefined);
      var st2 := if newline then field.st.(colIndex := 0) else field.st;
      var ev := if newline then field.events + [Line] else field.events;
      if c.None? && !endAtUndefined
      then Stepped(st2.(leftovers := Some(LeftoverList(st2.leftovers) + [txt[prev..i]])), ev, prev', false)
      else Stepped(st2, ev, prev', false)
  }

  /**
   * Inside a quote, the next '"' closes it; the test for a doubled quote reads `c[i]`
   * on the one-character string `c`, which is undefined for every `i >= 1`.
   */
  function QuoteStep(st: ParserState, c: char, i: nat): ParserState
  {
    if c == '"' && CharAt([c], i + 1) == Some('"') then st.(escaped := true)
    else if c == '"' then st.(inQuote := false)
    else st
  }

  /**
   * The `do … while (true)` loop of `parse(txt)` from index `i`, with the current field
   * starting at `prev`. It stops after reading past the end; inside a quote it
   * `continue`s before that test, so a text ending inside a quote never stops.
   */
  function Scanned(st: ParserState, txt: string, i: nat, prev: nat,
                   endAtUndefined: bool, asWritten: bool): Outcome
    requires prev <= i <= |txt|
    decreases |txt| - i
  {
    if st.inQuote then
      if i == |txt| then Loops
      else Scanned(QuoteStep(st, txt[i], i), txt, i + 1, prev, endAtUndefined, asWritten)
    else
      var s := Step(st, txt, i, prev, endAtUndefined, asWritten);
      if s.threw then Threw(s.st, s.events)
      else if i == |txt| then Done(s.st, s.events)
      else Prepend(s.events, Scanned(s.st, txt, i + 1, s.prev, endAtUndefined, asWritten))
  }

  /** One pass outside a quote, followed by the rest of the loop. */
  lemma ScannedStep(st: ParserState, txt: string, i: nat, prev: nat,
                    endAtUndefined: bool, asWritten: bool)
    requires prev <= i <= |txt| && !st.inQuote
    ensures var s := Step(st, txt, i, prev, endAtUndefined, asWritten);
            Scanned(st, txt, i, prev, endAtUndefined, asWritten)
            == if s.threw then Threw(s.st, s.events)
               else if i == |txt| then Done(s.st, s.events)
               else Prepend(s.events, Scanned(s.st, txt, i + 1, s.prev, endAtUndefined, asWritten))
  {
  }

  /** The events already emitted and the rest of the loop, after one more pass. */
  lemma ContinueAfterStep(emitted: seq<Event>, st: ParserState, txt: string, i: nat, prev: nat,
                          endAtUndefined: bool, goal: Outcome)
    requires prev <= i < |txt| && !st.inQuote
    requires Prepend(emitted, Scanned(st, txt, i, prev, endAtUndefined, false)) == goal
    requires !Step(st, txt, i, prev, endAtUndefined, false).threw
    ensures var s := Step(st, txt, i, prev, endAtUndefined, false);
            Prepend(emitted + s.events, Scanned(s.st, txt, i + 1, s.prev, endAtUndefined, false)) == goal
  {
    var s := Step(st, txt, i, prev, endAtUndefined, false);
    ScannedStep(st, txt, i, prev, endAtUndefined, false);
    PrependPrepend(emitted, s.events, Scanned(s.st, txt, i + 1, s.prev, endAtUndefined, false));
  }

  /** The events already emitted and the last pass of the loop. */
  lemma StopAfterStep(emitted: seq<Event>, st: ParserState, txt: string, i: nat, prev: nat,
                      endAtUndefined: bool, goal: Outcome)
    requires prev <= i <= |txt| && !st.inQuote
    requires Prepend(emitted, Scanned(st, txt, i, prev, endAtUndefined, false)) == goal
    requires Step(st, txt, i, prev, endAtUndefined, false).threw || i == |txt|
    ensures var s := Step(st, txt, i, prev, endAtUndefined, false);
            goal == if s.threw then Threw(s.st, emitted + s.events) else Done(s.st, emitted + s.events)
  {
    ScannedStep(st, txt, i, prev, endAtUndefined, false);
  }

  /** Inside a quote the loop goes on with the next character, unless the text ends there. */
  lemma QuoteContinues(emitted: seq<Event>, st: ParserState, txt: string, i: nat, prev: nat,
                       endAtUndefined: bool, goal: Outcome)
    requires prev <= i <= |txt| && st.inQuote && !goal.Loops?
    requires Prepend(emitted, Scanned(st, txt, i, prev, endAtUndefined, false)) == goal
    ensures i < |txt|
    ensures Prepend(emitted, Scanned(QuoteStep(st, txt[i], i), txt, i + 1, prev, endAtUndefined, false)) == goal
  {
  }

  /** `parse(txt)` as it is written. */
  function ParsedAsWritten(st: ParserState, txt: string, endAtUndefined: bool): Outcome
  {
    Scanned(st, txt, 0, 0, endAtUndefined, true)
  }

  /** `parse(txt)` with the null test on the whole field. */
  function Parsed(st: ParserState, txt: string, endAtUndefined: bool): Outcome
  {
    Scanned(st, txt, 0, 0, endAtUndefined, false)
  }

  // ---------------------------------------------------------------------------
  // end

  /**
   * `end()`: with leftovers, their join (null when empty) is emitted as one more field
   * and the line is closed. The leftovers are not cleared.
   */
  function Ended(st: ParserState): (r: Outcome)
    ensures !r.Loops? && r.st.leftovers == st.leftovers
    ensures st.leftovers.None? || |st.leftovers.value| == 0 ==> r == Done(st, [])
  {
    if st.leftovers.None? || |st.leftovers.value| == 0 then Done(st, [])
    else
      var v := Join(st.leftovers.value, "");
      var h := Handled(st, if |v| == 0 then None else Some(v));
      if h.Threw? then h else Done(h.st, h.events + [Line])
  }

  // ---------------------------------------------------------------------------
  // the parser object

  class CsvParser {
    const endAtUndefined: bool
    var colIndex: nat
    var quoted: bool
    var inQuote: bool
    var escaped: bool
    var leftovers: Option<seq<string>>
    /** The calls made to `col_cbk` and `line_cbk` so far. */
    var trace: seq<Event>

    function Snapshot(): ParserState
      reads this
    {
      ParserState(colIndex, quoted, inQuote, escaped, leftovers)
    }

    constructor (endAtUndefined: bool, start: ParserState)
      ensures this.endAtUndefined == endAtUndefined && Snapshot() == start && trace == []
    {
      this.endAtUndefined := endAtUndefined;
      colIndex := start.colIndex;
      quoted := start.quoted;
      inQuote := start.inQuote;
      escaped := start.escaped;
      leftovers := start.leftovers;
      trace := [];
    }

    method Reset()
      modifies this
      ensures Snapshot() == Initial && trace == old(trace)
    {
      colIndex := 0;
      quoted := false;
      inQuote := false;
      escaped := false;
      leftovers := None;
    }

    method HandleColumn(v: Option<string>) returns (threw: bool)
      modifies this
      ensures var o := Handled(old(Snapshot()), v);
              threw == o.Threw? && Snapshot() == o.st && trace == old(trace) + o.events
    {
      var w := v;
      if quoted {
        quoted := false;
        if w.None? {
          return true;
        }
        w := Some(StripEnds(w.value));
      }
      if escaped {
        if w.None? {
          return true;
        }
        w := Some(Undouble(w.value, '"'));
      }
      trace := trace + [Column(w, colIndex)];
      colIndex := colIndex + 1;
      threw := false;
    }

    /** One pass of the loop body of `parse` inside a quote, reading `c = txt[i]`. */
    method QuoteAdvance(c: char, i: nat)
      modifies this
      ensures Snapshot() == QuoteStep(old(Snapshot()), c, i) && trace == old(trace)
    {
      var doubled := c == '"' && CharAt([c], i + 1) == Some('"');
      escaped := escaped || doubled;
      if c == '"' && !doubled {
        inQuote := false;
      }
    }

    /** A field ends with this chunk's `part`. */
    method EndField(part: string) returns (threw: bool)
      modifies this
      ensures var o := EmitField(old(Snapshot()), part, false);
              threw == o.Threw? && Snapshot() == o.st && trace == old(trace) + o.events
    {
      var v := part;
      if leftovers.Some? {
        v := Join(leftovers.value + [v], "");
        leftovers := None;
      }
      threw := HandleColumn(if v == "" then None else Some(v));
    }

    /** One pass of the loop body of `parse` outside a quote, reading `txt[i]`. */
    method Advance(txt: string, i: nat, prev: nat, ghost st: ParserState) returns (prev': nat, threw: bool)
      requires prev <= i <= |txt| && !inQuote && Snapshot() == st
      modifies this
      ensures var s := Step(st, txt, i, prev, endAtUndefined, false);
              Snapshot() == s.st && trace == old(trace) + s.events
              && prev' == s.prev && threw == s.threw
    {
      prev' := prev;
      var c := CharAt(txt, i);
      if c == Some('"') && i + 1 == prev + 1 {
        quoted := true;
        inQuote := true;
        escaped := false;
      }
      if c == Some(',') || c == Some('\n') || (c.None? && endAtUndefined) {
        threw := EndField(txt[prev..i]);
        if threw {
          return;
        }
        prev' := i + 1;
      }
      if c == Some('\n') || (c.None? && endAtUndefined) {
        colIndex := 0;
        trace := trace + [Line];
      }
      if c.None? && !endAtUndefined {
        leftovers := Some(LeftoverList(leftovers) + [txt[prev..i]]);
      }
      threw := false;
    }

    method Parse(txt: string) returns (threw: bool)
      requires !Parsed(Snapshot(), txt, endAtUndefined).Loops?
      modifies this
      ensures var o := Parsed(old(Snapshot()), txt, endAtUndefined);
              threw == o.Threw? && Snapshot() == o.st && trace == old(trace) + o.events
    {
      var prev: nat := 0;
      var i: nat := 0;
      ghost var goal := Prepend(trace, Parsed(Snapshot(), txt, endAtUndefined));
      while true
        invariant prev <= i <= |txt| && !goal.Loops?
        invariant Prepend(trace, Scanned(Snapshot(), txt, i, prev, endAtUndefined, false)) == goal
        decreases |txt| - i
      {
        ghost var before := Snapshot();
        if inQuote {
          QuoteContinues(trace, before, txt, i, prev, endAtUndefined, goal);
          QuoteAdvance(txt[i], i);
          i := i + 1;
          continue;
        }
        ghost var t := trace;
        ghost var prev0 := prev;
        prev, threw := Advance(txt, i, prev, before);
        if threw || i == |txt| {
          StopAfterStep(t, before, txt, i, prev0, endAtUndefined, goal);
          return;
        }
        ContinueAfterStep(t, before, txt, i, prev0, endAtUndefined, goal);
        i := i + 1;
      }
    }

    method End() returns (threw: bool)
      modifies this
      ensures var o := Ended(old(Snapshot()));
              threw == o.Threw? && Snapshot() == o.st && trace == old(trace) + o.events
    {
      if leftovers.None? || |leftovers.value| == 0 {
        return false;
      }
      var v := Join(leftovers.value, "");
      threw := HandleColumn(if |v| == 0 then None else Some(v));
      if !threw {
        trace := trace + [Line];
      }
    }
  }

  // ---------------------------------------------------------------------------
  // feeding a text in chunks

  /** `parse` called on each chunk in turn, stopping at the first call that throws. */
  function Feed(st: ParserState, chunks: seq<string>, endAtUndefined: bool, asWritten: bool): Outcome
    decreases |chunks|
  {
    if |chunks| == 0 then Done(st, [])
    else
      var o := Scanned(st, chunks[0], 0, 0, endAtUndefined, asWritten);
      if !o.Done? then o
      else Prepend(o.events, Feed(o.st, chunks[1..], endAtUndefined, asWritten))
  }

  predicate NoQuote(s: string)
  {
    forall k :: 0 <= k < |s| ==> s[k] != '"'
  }

  /** A text with no field separator, no line break and no quote. */
  predicate Plain(s: string)
  {
    forall k :: 0 <= k < |s| ==> s[k] != ',' && s[k] != '\n' && s[k] != '"'
  }

  function NullIfEmpty(s: string): Option<string>
  {
    if s == "" then None else Some(s)
  }

  datatype FieldsResult = FieldsResult(events: seq<Event>, pending: string, col: nat)

  /**
   * A reference reading of an unquoted text: `acc` is the field read so far, ',' reports
   * it and moves to the next column, '\n' reports it and ends the line, and an empty
   * field is null. What is left is the unfinished field and the column it belongs to.
   */
  function Fields(acc: string, txt: string, col: nat): FieldsResult
    decreases |txt|
  {
    if |txt| == 0 then FieldsResult([], acc, col)
    else if txt[0] == ',' then
      var r := Fields("", txt[1..], col + 1);
      r.(events := [Column(NullIfEmpty(acc), col)] + r.events)
    else if txt[0] == '\n' then
      var r := Fields("", txt[1..], 0);
      r.(events := [Column(NullIfEmpty(acc), col), Line] + r.events)
    else Fields(acc + [txt[0]], txt[1..], col)
  }

  /** Reading `a + b` is reading `a`, then reading `b` from where `a` stopped. */
  lemma {:induction false} FieldsAppend(acc: string, a: string, b: string, col: nat)
    ensures var r1 := Fields(acc, a, col);
            var r2 := Fields(r1.pending, b, r1.col);
            Fields(acc, a + b, col) == FieldsResult(r1.events + r2.events, r2.pending, r2.col)
    decreases |a|
  {
    if |a| == 0 {
      assert a + b == b;
    } else {
      assert (a + b)[0] == a[0] && (a + b)[1..] == a[1..] + b;
      if a[0] == ',' {
        FieldsAppend("", a[1..], b, col + 1);
        var r1 := Fields("", a[1..], col + 1);
        var r2 := Fields(r1.pending, b, r1.col);
        var e := [Column(NullIfEmpty(acc), col)];
        assert e + (r1.events + r2.events) == (e + r1.events) + r2.events;
      } else if a[0] == '\n' {
        FieldsAppend("", a[1..], b, 0);
        var r1 := Fields("", a[1..], 0);
        var r2 := Fields(r1.pending, b, r1.col);
        var e := [Column(NullIfEmpty(acc), col), Line];
        assert e + (r1.events + r2.events) == (e + r1.events) + r2.events;
      } else {
        FieldsAppend(acc + [a[0]], a[1..], b, col);
      }
    }
  }

  /** The events that close the text when `end_at_undefined` is set. */
  function Closing(r: FieldsResult): seq<Event>
  {
    [Column(NullIfEmpty(r.pending), r.col), Line]
  }

  /**
   * The parser's outcome matches the reference reading: the same events, and either the
   * unfinished field kept in the leftovers (the line closed as well when
   * `end_at_undefined` is set).
   */
  predicate Agrees(o: Outcome, r: FieldsResult, endAtUndefined: bool)
  {
    o.Done? && !o.st.quoted && !o.st.inQuote && !o.st.escaped &&
    if endAtUndefined then
      o.events == r.events + Closing(r) && o.st.colIndex == 0 && o.st.leftovers.None?
    else
      o.events == r.events && o.st.colIndex == r.col &&
      o.st.leftovers.Some? && |o.st.leftovers.value| > 0 && Join(o.st.leftovers.value, "") == r.pending
  }

  lemma AgreesPrepend(e: seq<Event>, o: Outcome, r: FieldsResult, endAtUndefined: bool)
    requires Agrees(o, r, endAtUndefined)
    ensures Agrees(Prepend(e, o), r.(events := e + r.events), endAtUndefined)
  {
    if endAtUndefined {
      assert e + (r.events + Closing(r)) == (e + r.events) + Closing(r);
    }
  }

  /** A character that is neither a separator nor a quote only extends the field. */
  lemma PlainStep(st: ParserState, txt: string, i: nat, prev: nat, endAtUndefined: bool, asWritten: bool)
    requires prev <= i < |txt| && txt[i] != ',' && txt[i] != '\n' && txt[i] != '"'
    ensures Step(st, txt, i, prev, endAtUndefined, asWritten) == Stepped(st, [], prev, false)
  {
  }

  /**
   * On a text without quotes the parser reads exactly as the reference: every ',' and
   * '\n' reports the field, joined with the leftovers of earlier chunks.
   */
  lemma {:induction false} QuoteFreeScan(st: ParserState, txt: string, i: nat, prev: nat,
                                         endAtUndefined: bool)
    requires prev <= i <= |txt| && NoQuote(txt)
    requires !st.quoted && !st.inQuote && !st.escaped
    ensures Agrees(Scanned(st, txt, i, prev, endAtUndefined, false),
                   Fields(Pending(st.leftovers) + txt[prev..i], txt[i..], st.colIndex), endAtUndefined)
    decreases |txt| - i
  {
    if i == |txt| {
      QuoteFreeEnd(st, txt, prev, endAtUndefined);
    } else if txt[i] == ',' || txt[i] == '\n' {
      var next := ParserState(if txt[i] == ',' then st.colIndex + 1 else 0, false, false, false, None);
      QuoteFreeScan(next, txt, i + 1, i + 1, endAtUndefined);
      SeparatorCase(st, txt, i, prev, endAtUndefined);
    } else {
      QuoteFreeScan(st, txt, i + 1, prev, endAtUndefined);
      PlainCase(st, txt, i, prev, endAtUndefined);
    }
  }

  lemma SeparatorCase(st: ParserState, txt: string, i: nat, prev: nat, endAtUndefined: bool)
    requires prev <= i < |txt| && (txt[i] == ',' || txt[i] == '\n')
    requires !st.quoted && !st.inQuote && !st.escaped
    requires var next := ParserState(if txt[i] == ',' then st.colIndex + 1 else 0, false, false, false, None);
             Agrees(Scanned(next, txt, i + 1, i + 1, endAtUndefined, false),
                    Fields(Pending(next.leftovers) + txt[i + 1..i + 1], txt[i + 1..], next.colIndex), endAtUndefined)
    ensures Agrees(Scanned(st, txt, i, prev, endAtUndefined, false),
                   Fields(Pending(st.leftovers) + txt[prev..i], txt[i..], st.colIndex), endAtUndefined)
  {
    var c := txt[i];
    assert txt[i..][0] == c && txt[i..][1..] == txt[i + 1..];
    ScannedStep(st, txt, i, prev, endAtUndefined, false);
    SeparatorStep(st, txt, i, prev, endAtUndefined);
    var s := Step(st, txt, i, prev, endAtUndefined, false);
    assert txt[i + 1..i + 1] == [];
    assert Pending(s.st.leftovers) + txt[i + 1..i + 1] == "";
    AgreesPrepend(s.events, Scanned(s.st, txt, i + 1, i + 1, endAtUndefined, false),
                  Fields("", txt[i + 1..], s.st.colIndex), endAtUndefined);
  }

  lemma PlainCase(st: ParserState, txt: string, i: nat, prev: nat, endAtUndefined: bool)
    requires prev <= i < |txt| && txt[i] != ',' && txt[i] != '\n' && txt[i] != '"'
    requires !st.quoted && !st.inQuote && !st.escaped
    requires Agrees(Scanned(st, txt, i + 1, prev, endAtUndefined, false),
                    Fields(Pending(st.leftovers) + txt[prev..i + 1], txt[i + 1..], st.colIndex), endAtUndefined)
    ensures Agrees(Scanned(st, txt, i, prev, endAtUndefined, false),
                   Fields(Pending(st.leftovers) + txt[prev..i], txt[i..], st.colIndex), endAtUndefined)
  {
    var c := txt[i];
    var acc := Pending(st.leftovers) + txt[prev..i];
    assert txt[i..][0] == c && txt[i..][1..] == txt[i + 1..];
    assert txt[prev..i + 1] == txt[prev..i] + [c];
    assert acc + [c] == Pending(st.leftovers) + txt[prev..i + 1];
    ScannedStep(st, txt, i, prev, endAtUndefined, false);
    PlainStep(st, txt, i, prev, endAtUndefined, false);
    var o := Scanned(st, txt, i + 1, prev, endAtUndefined, false);
    assert Scanned(st, txt, i, prev, endAtUndefined, false) == Prepend([], o);
    assert Prepend([], o) == o by {
      assert [] + o.events == o.events;
    }
    assert Fields(acc, txt[i..], st.colIndex) == Fields(acc + [c], txt[i + 1..], st.colIndex);
  }

  /** The last pass of the loop, past the end of a text without quotes. */
  lemma QuoteFreeEnd(st: ParserState, txt: string, prev: nat, endAtUndefined: bool)
    requires prev <= |txt|
    requires !st.quoted && !st.inQuote && !st.escaped
    ensures Agrees(Scanned(st, txt, |txt|, prev, endAtUndefined, false),
                   Fields(Pending(st.leftovers) + txt[prev..|txt|], txt[|txt|..], st.colIndex), endAtUndefined)
  {
    var part := txt[prev..|txt|];
    assert txt[|txt|..] == [];
    var acc := Pending(st.leftovers) + part;
    JoinSnoc(LeftoverList(st.leftovers), part);
    ScannedStep(st, txt, |txt|, prev, endAtUndefined, false);
    var r := Fields(acc, [], st.colIndex);
    assert r == FieldsResult([], acc, st.colIndex);
    var s := Step(st, txt, |txt|, prev, endAtUndefined, false);
    if endAtUndefined {
      assert s.events == [Column(NullIfEmpty(acc), st.colIndex), Line];
      assert r.events + Closing(r) == s.events;
    } else {
      assert s.events == [];
    }
  }

  /** A ',' or '\n' outside a quote reports the field read so far. */
  lemma SeparatorStep(st: ParserState, txt: string, i: nat, prev: nat, endAtUndefined: bool)
    requires prev <= i < |txt| && (txt[i] == ',' || txt[i] == '\n')
    requires !st.quoted && !st.inQuote && !st.escaped
    ensures var s := Step(st, txt, i, prev, endAtUndefined, false);
            var field := Column(NullIfEmpty(Pending(st.leftovers) + txt[prev..i]), st.colIndex);
            !s.threw && s.prev == i + 1 &&
            if txt[i] == ',' then
              s.st == ParserState(st.colIndex + 1, false, false, false, None) && s.events == [field]
            else
              s.st == ParserState(0, false, false, false, None) && s.events == [field, Line]
  {
    JoinSnoc(LeftoverList(st.leftovers), txt[prev..i]);
  }

  /** Fed in chunks without quotes, the parser reads the chunks' concatenation. */
  lemma {:induction false} FeedQuoteFree(st: ParserState, chunks: seq<string>)
    requires |chunks| > 0 && forall k :: 0 <= k < |chunks| ==> NoQuote(chunks[k])
    requires !st.quoted && !st.inQuote && !st.escaped
    ensures Agrees(Feed(st, chunks, false, false),
                   Fields(Pending(st.leftovers), Join(chunks, ""), st.colIndex), false)
    decreases |chunks|
  {
    var c0 := chunks[0];
    assert c0[0..0] == "" && c0[0..] == c0;
    assert Pending(st.leftovers) + c0[0..0] == Pending(st.leftovers);
    QuoteFreeScan(st, c0, 0, 0, false);
    var o := Scanned(st, c0, 0, 0, false, false);
    if |chunks| == 1 {
      assert Feed(o.st, chunks[1..], false, false) == Done(o.st, []);
      assert Feed(st, chunks, false, false) == Done(o.st, o.events + []);
      assert o.events + [] == o.events;
      assert Join(chunks, "") == c0;
    } else {
      var rest := chunks[1..];
      assert forall k :: 0 <= k < |rest| ==> NoQuote(rest[k]) by {
        forall k | 0 <= k < |rest| ensures NoQuote(rest[k]) {
          assert rest[k] == chunks[k + 1];
        }
      }
      FeedQuoteFree(o.st, rest);
      FieldsAppend(Pending(st.leftovers), c0, Join(rest, ""), st.colIndex);
      assert Join(chunks, "") == c0 + Join(rest, "");
      var f := Feed(o.st, rest, false, false);
      assert Feed(st, chunks, false, false) == Prepend(o.events, f);
    }
  }

  lemma {:induction false} JoinNoQuote(chunks: seq<string>)
    requires forall k :: 0 <= k < |chunks| ==> NoQuote(chunks[k])
    ensures NoQuote(Join(chunks, ""))
  {
    if |chunks| > 1 {
      var rest := chunks[1..];
      assert forall k :: 0 <= k < |rest| ==> NoQuote(rest[k]) by {
        forall k | 0 <= k < |rest| ensures NoQuote(rest[k]) {
          assert rest[k] == chunks[k + 1];
        }
      }
      JoinNoQuote(rest);
      var a, b := chunks[0], Join(rest, "");
      assert Join(chunks, "") == a + b;
      assert NoQuote(a);
      forall k | 0 <= k < |a + b| ensures (a + b)[k] != '"' {
        if k >= |a| {
          assert (a + b)[k] == b[k - |a|];
        }
      }
    }
  }

  lemma WholeQuoteFree(st: ParserState, txt: string)
    requires NoQuote(txt) && !st.quoted && !st.inQuote && !st.escaped
    ensures Agrees(Parsed(st, txt, false), Fields(Pending(st.leftovers), txt, st.colIndex), false)
  {
    assert txt[0..0] == "" && txt[0..] == txt;
    assert Pending(st.leftovers) + txt[0..0] == Pending(st.leftovers);
    QuoteFreeScan(st, txt, 0, 0, false);
  }

  /** With leftovers kept by a chunk, `end()` reports the unfinished field and the line. */
  lemma EndedAgrees(o: Outcome, r: FieldsResult)
    requires Agrees(o, r, false)
    ensures Ended(o.st).Done? && Ended(o.st).events == Closing(r)
  {
  }

  /**
   * However a text without quotes is cut into chunks, feeding the chunks and calling
   * `end()` reports the same columns and lines as parsing the whole text at once.
   */
  lemma ChunkingInvariant(st: ParserState, chunks: seq<string>)
    requires |chunks| > 0 && forall k :: 0 <= k < |chunks| ==> NoQuote(chunks[k])
    requires !st.quoted && !st.inQuote && !st.escaped
    ensures var f := Feed(st, chunks, false, false);
            var w := Parsed(st, Join(chunks, ""), false);
            f.Done? && w.Done? && f.events == w.events
            && Ended(f.st).Done? && Ended(w.st).Done? && Ended(f.st).events == Ended(w.st).events
  {
    var whole := Join(chunks, "");
    var r := Fields(Pending(st.leftovers), whole, st.colIndex);
    var f := Feed(st, chunks, false, false);
    var w := Parsed(st, whole, false);
    FeedQuoteFree(st, chunks);
    assert Agrees(f, r, false);
    JoinNoQuote(chunks);
    WholeQuoteFree(st, whole);
    EndedAgrees(f, r);
    EndedAgrees(w, r);
  }

  /** A run of characters that are neither separators nor quotes changes nothing. */
  lemma {:induction false} PlainRun(st: ParserState, txt: string, i: nat, j: nat, prev: nat,
                                    endAtUndefined: bool, asWritten: bool)
    requires prev <= i <= j <= |txt| && !st.inQuote && Plain(txt[i..j])
    ensures Scanned(st, txt, i, prev, endAtUndefined, asWritten)
            == Scanned(st, txt, j, prev, endAtUndefined, asWritten)
    decreases j - i
  {
    if i < j {
      assert txt[i] == txt[i..j][0];
      assert txt[i + 1..j] == txt[i..j][1..];
      ScannedStep(st, txt, i, prev, endAtUndefined, asWritten);
      PlainStep(st, txt, i, prev, endAtUndefined, asWritten);
      PlainRun(st, txt, i + 1, j, prev, endAtUndefined, asWritten);
    }
  }

  /**
   * As written, a field cut by the chunk boundary just before its ',' is reported as
   * null: the test `prev === i - 1` sees only the empty part in the new chunk and
   * discards the leftovers already joined in. Read in one piece it is reported in full.
   */
  lemma ChunkBoundaryDropsField(a: string)
    requires |a| > 0 && Plain(a)
    ensures Feed(Initial, [a, ","], false, true)
            == Done(ParserState(1, false, false, false, Some([""])), [Column(None, 0)])
    ensures ParsedAsWritten(Initial, a + ",", false)
            == Done(ParserState(1, false, false, false, Some([""])), [Column(Some(a), 0)])
  {
    var st1 := Initial.(leftovers := Some([a]));
    var st2 := ParserState(1, false, false, false, Some([""]));
    PlainChunk(a, true);
    CommaAfterLeftovers(a);
    assert [a, ","][1..] == [","];
    assert [a, ","][1..][1..] == [];
    assert Feed(st2, [], false, true) == Done(st2, []);
    assert Feed(st1, [","], false, true) == Done(st2, [Column(None, 0)]);
    assert Feed(Initial, [a, ","], false, true) == Prepend([], Feed(st1, [","], false, true));
    FieldThenComma(a);
  }

  /** A chunk with no separator and no quote is kept whole as leftovers. */
  lemma PlainChunk(a: string, asWritten: bool)
    requires Plain(a)
    ensures Scanned(Initial, a, 0, 0, false, asWritten) == Done(Initial.(leftovers := Some([a])), [])
  {
    assert a[0..|a|] == a;
    PlainRun(Initial, a, 0, |a|, 0, false, asWritten);
    ScannedStep(Initial, a, |a|, 0, false, asWritten);
    assert LeftoverList(None) + [a[0..|a|]] == [a];
  }

  /** As written: a chunk "," after leftovers `[a]` reports a null field. */
  lemma CommaAfterLeftovers(a: string)
    ensures Scanned(Initial.(leftovers := Some([a])), ",", 0, 0, false, true)
            == Done(ParserState(1, false, false, false, Some([""])), [Column(None, 0)])
  {
    var st1 := Initial.(leftovers := Some([a]));
    var mid := ParserState(1, false, false, false, None);
    ScannedStep(st1, ",", 0, 0, false, true);
    assert ","[0..0] == "" && ","[1..1] == "";
    assert Step(st1, ",", 0, 0, false, true) == Stepped(mid, [Column(None, 0)], 1, false);
    ScannedStep(mid, ",", 1, 1, false, true);
    assert LeftoverList(None) + [","[1..1]] == [""];
    assert Step(mid, ",", 1, 1, false, true) == Stepped(ParserState(1, false, false, false, Some([""])), [], 1, false);
  }

  /** As written, a field read in one piece and ended by ',' is reported in full. */
  lemma FieldThenComma(a: string)
    requires |a| > 0 && Plain(a)
    ensures ParsedAsWritten(Initial, a + ",", false)
            == Done(ParserState(1, false, false, false, Some([""])), [Column(Some(a), 0)])
  {
    var w := a + ",";
    var mid := ParserState(1, false, false, false, None);
    assert w[0..|a|] == a && |w| == |a| + 1 && w[|a|] == ',';
    PlainRun(Initial, w, 0, |a|, 0, false, true);
    ScannedStep(Initial, w, |a|, 0, false, true);
    assert Step(Initial, w, |a|, 0, false, true) == Stepped(mid, [Column(Some(a), 0)], |a| + 1, false);
    ScannedStep(mid, w, |a| + 1, |a| + 1, false, true);
    assert w[|a| + 1..|a| + 1] == "";
    assert LeftoverList(None) + [w[|a| + 1..|a| + 1]] == [""];
  }

  /** Inside a quote, characters other than '"' change nothing. */
  lemma {:induction false} QuotedRun(st: ParserState, txt: string, i: nat, j: nat, prev: nat,
                                     endAtUndefined: bool)
    requires prev <= i <= j <= |txt| && st.inQuote && NoQuote(txt[i..j])
    ensures Scanned(st, txt, i, prev, endAtUndefined, false)
            == Scanned(st, txt, j, prev, endAtUndefined, false)
    decreases j - i
  {
    if i < j {
      assert txt[i] == txt[i..j][0];
      assert txt[i + 1..j] == txt[i..j][1..];
      QuotedRun(st, txt, i + 1, j, prev, endAtUndefined);
    }
  }

  /**
   * Section 2, rule 6 of RFC 4180: a field in double quotes may hold separators and line
   * breaks; it is reported without its quotes.
   */
  lemma QuotedField(f: string)
    requires NoQuote(f)
    ensures Parsed(Initial, ['"'] + f + ['"'], true) == Done(Initial, [Column(Some(f), 0), Line])
  {
    var txt := ['"'] + f + ['"'];
    var st1 := Initial.(quoted := true, inQuote := true);
    ScannedStep(Initial, txt, 0, 0, true, false);
    assert txt[1..|f| + 1] == f;
    QuotedRun(st1, txt, 1, |f| + 1, 0, true);
    var st2 := st1.(inQuote := false);
    assert Scanned(st1, txt, |f| + 1, 0, true, false) == Scanned(st2, txt, |f| + 2, 0, true, false);
    ScannedStep(st2, txt, |f| + 2, 0, true, false);
    assert txt[0..|f| + 2] == txt;
    assert StripEnds(txt) == f;
  }

  /**
   * The doubled-quote test on src/csv.ts:46 indexes the one-character string `c`, so
   * `escaped` is never set: `""` inside a quoted field is not collapsed.
   */
  lemma {:induction false} NeverEscaped(st: ParserState, txt: string, i: nat, prev: nat,
                                        endAtUndefined: bool, asWritten: bool)
    requires prev <= i <= |txt| && !st.escaped
    ensures var o := Scanned(st, txt, i, prev, endAtUndefined, asWritten);
            !o.Loops? ==> !o.st.escaped
    decreases |txt| - i
  {
    if st.inQuote {
      if i < |txt| {
        NeverEscaped(QuoteStep(st, txt[i], i), txt, i + 1, prev, endAtUndefined, asWritten);
      }
    } else {
      ScannedStep(st, txt, i, prev, endAtUndefined, asWritten);
      var s := Step(st, txt, i, prev, endAtUndefined, asWritten);
      if !s.threw && i < |txt| {
        NeverEscaped(s.st, txt, i + 1, s.prev, endAtUndefined, asWritten);
      }
    }
  }
}
