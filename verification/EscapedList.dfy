/** `escaped_list_separator`: fields with quoting and escape sequences. */
module EscapedList {
  import opened Tokens

  datatype Syntax = Syntax(escape: string, c: string, quote: string)

  /** The whole tokenization in one pass: cur is the field read so far. */
  function Fields(x: Syntax, cur: string, inQuote: bool, s: string): Rest
    decreases |s|
  {
    if s == "" then Rest([cur], NoError)
    else if s[0] in x.escape then
      if |s| == 1 then Rest([], CannotEndWithEscape)
      else if s[1] == 'n' then Fields(x, cur + "\n", inQuote, s[2..])
      else if s[1] in x.quote || s[1] in x.c || s[1] in x.escape then Fields(x, cur + [s[1]], inQuote, s[2..])
      else Rest([], UnknownEscape)
    else if s[0] in x.c && !inQuote then Prepend(cur, Fields(x, "", false, s[1..]))
    else if s[0] in x.quote && s[0] !in x.c then Fields(x, cur, !inQuote, s[1..])
    else Fields(x, cur + [s[0]], inQuote, s[1..])
  }

  class EscapedListSeparator {
    const syntax: Syntax
    var last: bool

    constructor (e: string, c: string, q: string)
      ensures syntax == Syntax(e, c, q) && !last
    {
      syntax, last := Syntax(e, c, q), false;
    }

    constructor Copy(other: EscapedListSeparator)
      ensures syntax == other.syntax && last == other.last
    {
      syntax, last := other.syntax, other.last;
    }

    method Reset()
      modifies this
      ensures !last
    {
      last := false;
    }

    /** The tokens still to come when the text from pos on is left. */
    ghost function Remaining(input: string, pos: nat): Rest
      requires pos <= |input|
      reads this
    {
      if pos == |input| && !last then NOTHING else Fields(syntax, "", false, input[pos..])
    }

    /** `do_escape`: reads the character after the escape at `next`. */
    method DoEscape(input: string, next: nat, tok: string) returns (error: Error, next': nat, tok': string)
      requires next < |input| && input[next] in syntax.escape
      ensures next' == next + 1
      ensures error == NoError ==> next' < |input|
      ensures error == NoError ==> forall q :: Fields(syntax, tok, q, input[next..]) == Fields(syntax, tok', q, input[next' + 1..])
      ensures error != NoError ==> forall q :: Fields(syntax, tok, q, input[next..]) == Rest([], error)
    {
      next', tok', error := next + 1, tok, NoError;
      ghost var s := input[next..];
      if next' == |input| {
        return CannotEndWithEscape, next', tok;
      }
      var ch := input[next'];
      assert s[1] == ch && s[2..] == input[next' + 1..];
      if ch == 'n' {
        tok' := tok + "\n";
      } else if ch in syntax.quote {
        tok' := tok + [ch];
      } else if ch in syntax.c {
        tok' := tok + [ch];
      } else if ch in syntax.escape {
        tok' := tok + [ch];
      } else {
        error := UnknownEscape;
      }
    }

    /** `operator()`. */
    method Next(input: string, pos: nat) returns (call: Call, pos': nat, tok: string)
      requires pos <= |input|
      modifies this
      ensures pos <= pos' <= |input|
      ensures Delivered(old(Remaining(input, pos)), call, tok, Remaining(input, pos'))
      ensures call == Token ==> (pos' == pos <==> pos == |input|) && (pos' == pos ==> tok == "")
    {
      var bInQuote := false;
      tok := "";
      if pos == |input| {
        if last {
          last := false;
          assert input[pos..] == "";
          return Token, pos, tok;
        } else {
          return End, pos, tok;
        }
      }
      last := false;
      ghost var all := Fields(syntax, "", false, input[pos..]);
      var next := pos;
      while next != |input|
        invariant pos <= next <= |input| && !last
        invariant all == Fields(syntax, tok, bInQuote, input[next..])
        decreases |input| - next
      {
        ghost var s := input[next..];
        assert s[0] == input[next] && s[1..] == input[next + 1..];
        if input[next] in syntax.escape {
          var error;
          error, next, tok := DoEscape(input, next, tok);
          if error != NoError { return Thrown(error), next, tok; }
        } else if input[next] in syntax.c {
          if !bInQuote {
            next := next + 1;
            last := true;
            return Token, next, tok;
          } else {
            tok := tok + [input[next]];
          }
        } else if input[next] in syntax.quote {
          bInQuote := !bInQuote;
        } else {
          tok := tok + [input[next]];
        }
        next := next + 1;
      }
      assert input[next..] == "";
      return Token, next, tok;
    }
  }

  // ---- What is read of a character --------------------------------------

  /** A character that stands for itself, or an escape sequence. */
  datatype Unit = Plain(ch: char) | Escape(e: char, ch: char)

  function UnitText(u: Unit): string { if u.Plain? then [u.ch] else [u.e, u.ch] }

  /** `n` after an escape is a newline; everything else is itself. */
  function UnitChar(u: Unit): char { if u.Escape? && u.ch == 'n' then '\n' else u.ch }

  /** Between quotes a separator stands for itself, and so does a quote that separates. */
  predicate Legal(x: Syntax, inQuote: bool, u: Unit)
  {
    match u
    case Plain(ch) => ch !in x.escape && (if inQuote then ch in x.c || ch !in x.quote else ch !in x.c && ch !in x.quote)
    case Escape(e, ch) => e in x.escape && (ch == 'n' || ch in x.quote || ch in x.c || ch in x.escape)
  }

  function Text(units: seq<Unit>): string
  {
    if units == [] then "" else UnitText(units[0]) + Text(units[1..])
  }

  function Chars(units: seq<Unit>): (s: string)
    ensures |s| == |units|
  {
    seq(|units|, i requires 0 <= i < |units| => UnitChar(units[i]))
  }

  /** Characters and escape sequences are appended to the field in order, quoted or not. */
  lemma {:induction false} ReadUnits(x: Syntax, cur: string, inQuote: bool, units: seq<Unit>, rest: string)
    requires forall i :: 0 <= i < |units| ==> Legal(x, inQuote, units[i])
    ensures Fields(x, cur, inQuote, Text(units) + rest) == Fields(x, cur + Chars(units), inQuote, rest)
    decreases |units|
  {
    if units == [] {
      assert Text(units) + rest == rest && cur + Chars(units) == cur;
    } else {
      var u, more := units[0], Text(units[1..]) + rest;
      assert Text(units) + rest == UnitText(u) + more;
      ReadUnit(x, cur, inQuote, u, more);
      ReadUnits(x, cur + [UnitChar(u)], inQuote, units[1..], rest);
      assert cur + [UnitChar(u)] + Chars(units[1..]) == cur + Chars(units);
    }
  }

  lemma {:induction false} ReadUnit(x: Syntax, cur: string, inQuote: bool, u: Unit, rest: string)
    requires Legal(x, inQuote, u)
    ensures Fields(x, cur, inQuote, UnitText(u) + rest) == Fields(x, cur + [UnitChar(u)], inQuote, rest)
  {
    var s := UnitText(u) + rest;
    if u.Plain? {
      assert s[1..] == rest;
    } else {
      assert s[2..] == rest && s[0] == u.e && s[1] == u.ch;
    }
  }

  /** A part of a field, between quotes or not. */
  datatype Segment = Bare(units: seq<Unit>) | Quoted(opening: char, units: seq<Unit>, closing: char)

  predicate IsQuote(x: Syntax, ch: char) { ch in x.quote && ch !in x.c && ch !in x.escape }

  predicate LegalSegment(x: Syntax, g: Segment)
  {
    && (g.Quoted? ==> IsQuote(x, g.opening) && IsQuote(x, g.closing))
    && forall i :: 0 <= i < |g.units| ==> Legal(x, g.Quoted?, g.units[i])
  }

  function SegmentText(g: Segment): string
  {
    if g.Quoted? then [g.opening] + (Text(g.units) + [g.closing]) else Text(g.units)
  }

  function FieldText(gs: seq<Segment>): string
  {
    if gs == [] then "" else SegmentText(gs[0]) + FieldText(gs[1..])
  }

  function FieldChars(gs: seq<Segment>): string
  {
    if gs == [] then "" else Chars(gs[0].units) + FieldChars(gs[1..])
  }

  /** Fields with separators between them. */
  function Joined(fields: seq<seq<Segment>>, separators: string): string
    requires |fields| == |separators| + 1
  {
    if separators == "" then FieldText(fields[0])
    else FieldText(fields[0]) + ([separators[0]] + Joined(fields[1..], separators[1..]))
  }

  lemma {:induction false} ReadSegment(x: Syntax, cur: string, g: Segment, rest: string)
    requires LegalSegment(x, g)
    ensures Fields(x, cur, false, SegmentText(g) + rest) == Fields(x, cur + Chars(g.units), false, rest)
  {
    if g.Quoted? {
      var tail := [g.closing] + rest;
      assert SegmentText(g) + rest == [g.opening] + (Text(g.units) + tail);
      assert ([g.opening] + (Text(g.units) + tail))[1..] == Text(g.units) + tail;
      ReadUnits(x, cur, true, g.units, tail);
      assert tail[1..] == rest;
    } else {
      ReadUnits(x, cur, false, g.units, rest);
    }
  }

  lemma {:induction false} ReadSegments(x: Syntax, cur: string, gs: seq<Segment>, rest: string)
    requires forall i :: 0 <= i < |gs| ==> LegalSegment(x, gs[i])
    ensures Fields(x, cur, false, FieldText(gs) + rest) == Fields(x, cur + FieldChars(gs), false, rest)
    decreases |gs|
  {
    if gs == [] {
      assert FieldText(gs) + rest == rest && cur + FieldChars(gs) == cur;
    } else {
      var c, more := Chars(gs[0].units), FieldText(gs[1..]) + rest;
      assert FieldText(gs) + rest == SegmentText(gs[0]) + more;
      ReadSegment(x, cur, gs[0], more);
      ReadSegments(x, cur + c, gs[1..], rest);
      assert cur + c + FieldChars(gs[1..]) == cur + FieldChars(gs);
    }
  }

  ghost predicate LegalFields(x: Syntax, fields: seq<seq<Segment>>, separators: string)
  {
    && |fields| == |separators| + 1
    && (forall k, i :: 0 <= k < |fields| && 0 <= i < |fields[k]| ==> LegalSegment(x, fields[k][i]))
    && (forall k :: 0 <= k < |separators| ==> separators[k] in x.c && separators[k] !in x.escape)
  }

  /** Any text put together from characters, escape sequences, quoted stretches and separators
      is read as the fields it was put together from. */
  lemma {:induction false} ReadFields(x: Syntax, fields: seq<seq<Segment>>, separators: string)
    requires LegalFields(x, fields, separators)
    ensures Fields(x, "", false, Joined(fields, separators))
         == Rest(seq(|fields|, k requires 0 <= k < |fields| => FieldChars(fields[k])), NoError)
    decreases |fields|
  {
    var f := FieldChars(fields[0]);
    var all := seq(|fields|, k requires 0 <= k < |fields| => FieldChars(fields[k]));
    assert "" + f == f;
    if separators == "" {
      assert FieldText(fields[0]) + "" == FieldText(fields[0]);
      ReadSegments(x, "", fields[0], "");
      assert all == [f];
    } else {
      var more, later := Joined(fields[1..], separators[1..]), fields[1..];
      ReadSegments(x, "", fields[0], [separators[0]] + more);
      assert ([separators[0]] + more)[1..] == more;
      ReadFields(x, later, separators[1..]);
      assert all == [f] + seq(|later|, k requires 0 <= k < |later| => FieldChars(later[k]));
    }
  }

  // ---- Writing fields so that they are read back ------------------------

  /** A choice of one escape, one separator and one quote to write with; fields may be put
      between quotes or not. */
  datatype Pen = Pen(e: char, c: char, q: char, quoting: bool)

  ghost predicate Writes(x: Syntax, pen: Pen)
  {
    pen.e in x.escape && pen.c in x.c && pen.c !in x.escape && (pen.quoting ==> IsQuote(x, pen.q))
  }

  /** The characters that have to be escaped. */
  predicate Special(x: Syntax, quoting: bool, ch: char)
  {
    ch in x.escape || ch in x.quote || (!quoting && ch in x.c)
  }

  function Spelled(x: Syntax, pen: Pen, field: string): (units: seq<Unit>)
    ensures |units| == |field|
  {
    seq(|field|, i requires 0 <= i < |field| =>
      if Special(x, pen.quoting, field[i]) then Escape(pen.e, field[i]) else Plain(field[i]))
  }

  function Spelling(x: Syntax, pen: Pen, field: string): Segment
  {
    if pen.quoting then Quoted(pen.q, Spelled(x, pen, field), pen.q) else Bare(Spelled(x, pen, field))
  }

  /** All fields joined by the separator. */
  function Written(x: Syntax, pen: Pen, fields: seq<string>): string
    requires fields != []
  {
    Joined(seq(|fields|, k requires 0 <= k < |fields| => [Spelling(x, pen, fields[k])]), seq(|fields| - 1, _ => pen.c))
  }

  /** `n` need not be escaped, which would make it a newline. */
  predicate NewlineFree(x: Syntax, pen: Pen) { !Special(x, pen.quoting, 'n') }

  /** What is written for a field stands for it, with newlines for the `n`s if they are escaped. */
  function AsRead(x: Syntax, pen: Pen, field: string): (s: string)
    ensures |s| == |field|
    ensures NewlineFree(x, pen) ==> s == field
  {
    seq(|field|, i requires 0 <= i < |field| =>
      if field[i] == 'n' && !NewlineFree(x, pen) then '\n' else field[i])
  }

  lemma {:induction false} SpellingRead(x: Syntax, pen: Pen, field: string)
    requires Writes(x, pen)
    ensures LegalSegment(x, Spelling(x, pen, field))
    ensures FieldChars([Spelling(x, pen, field)]) == AsRead(x, pen, field)
  {
    var g := Spelling(x, pen, field);
    assert [g][1..] == [] && Chars(g.units) + "" == Chars(g.units);
    assert Chars(g.units) == AsRead(x, pen, field);
  }

  /** What is written is read back, empty and trailing empty fields included, every `n` that
      had to be escaped having become a newline. */
  lemma {:induction false} ReadWritten(x: Syntax, pen: Pen, fields: seq<string>)
    requires fields != [] && Writes(x, pen)
    ensures Fields(x, "", false, Written(x, pen, fields))
         == Rest(seq(|fields|, k requires 0 <= k < |fields| => AsRead(x, pen, fields[k])), NoError)
  {
    var segments := seq(|fields|, k requires 0 <= k < |fields| => [Spelling(x, pen, fields[k])]);
    var separators := seq(|fields| - 1, _ => pen.c);
    forall k | 0 <= k < |fields| ensures LegalSegment(x, segments[k][0]) && FieldChars(segments[k]) == AsRead(x, pen, fields[k]) {
      SpellingRead(x, pen, fields[k]);
    }
    ReadFields(x, segments, separators);
    assert seq(|segments|, k requires 0 <= k < |segments| => FieldChars(segments[k]))
        == seq(|fields|, k requires 0 <= k < |fields| => AsRead(x, pen, fields[k]));
  }

  lemma {:induction false} RoundTrip(x: Syntax, pen: Pen, fields: seq<string>)
    requires fields != [] && Writes(x, pen) && NewlineFree(x, pen)
    ensures Fields(x, "", false, Written(x, pen, fields)) == Rest(fields, NoError)
  {
    ReadWritten(x, pen, fields);
    assert seq(|fields|, k requires 0 <= k < |fields| => AsRead(x, pen, fields[k])) == fields;
  }

  /** A field "n" is read back as a newline when `n` has to be escaped. */
  lemma {:induction false} NewlineBreaks(x: Syntax, pen: Pen)
    requires Writes(x, pen) && !NewlineFree(x, pen)
    ensures Fields(x, "", false, Written(x, pen, ["n"])) == Rest(["\n"], NoError)
  {
    ReadWritten(x, pen, ["n"]);
    assert AsRead(x, pen, "n") == "\n";
    assert seq(1, k requires 0 <= k < 1 => AsRead(x, pen, ["n"][k])) == ["\n"];
  }

  /** The round trip holds for every non-empty list of fields exactly when `n` needs no
      escape: it is neither an escape nor a quote character nor, without quotes, a separator. */
  lemma {:induction false} RoundTripExact(x: Syntax, pen: Pen)
    requires Writes(x, pen)
    ensures NewlineFree(x, pen) <==>
      forall fields :: fields != [] ==> Fields(x, "", false, Written(x, pen, fields)) == Rest(fields, NoError)
  {
    if NewlineFree(x, pen) {
      forall fields: seq<string> | fields != []
        ensures Fields(x, "", false, Written(x, pen, fields)) == Rest(fields, NoError)
      {
        RoundTrip(x, pen, fields);
      }
    } else {
      NewlineBreaks(x, pen);
      assert ["n"][0] != ["\n"][0];
    }
  }

  // ---- Errors and counts on arbitrary text ------------------------------

  /** Every escape is followed by a character it may escape. */
  predicate WellEscaped(x: Syntax, s: string)
    decreases |s|
  {
    if s == "" then true
    else if s[0] in x.escape then
      |s| > 1 && (s[1] == 'n' || s[1] in x.quote || s[1] in x.c || s[1] in x.escape) && WellEscaped(x, s[2..])
    else WellEscaped(x, s[1..])
  }

  /** The separators that are neither escaped nor between quotes. */
  function BareSeparators(x: Syntax, inQuote: bool, s: string): nat
    decreases |s|
  {
    if s == "" then 0
    else if s[0] in x.escape then (if |s| > 1 then BareSeparators(x, inQuote, s[2..]) else 0)
    else if s[0] in x.c then (if inQuote then 0 else 1) + BareSeparators(x, inQuote, s[1..])
    else BareSeparators(x, inQuote != (s[0] in x.quote), s[1..])
  }

  /** Tokenizing fails exactly on ill-formed escapes; otherwise there is one field more
      than there are bare separators. */
  lemma {:induction false} FailureAndCount(x: Syntax, cur: string, inQuote: bool, s: string)
    ensures Fields(x, cur, inQuote, s).error == NoError <==> WellEscaped(x, s)
    ensures WellEscaped(x, s) ==> |Fields(x, cur, inQuote, s).list| == 1 + BareSeparators(x, inQuote, s)
    decreases |s|
  {
    if s == "" {
    } else if s[0] in x.escape {
      if |s| > 1 {
        FailureAndCount(x, cur + "\n", inQuote, s[2..]);
        FailureAndCount(x, cur + [s[1]], inQuote, s[2..]);
      }
    } else if s[0] in x.c && !inQuote {
      FailureAndCount(x, "", false, s[1..]);
    } else if s[0] in x.quote && s[0] !in x.c {
      FailureAndCount(x, cur, !inQuote, s[1..]);
    } else {
      FailureAndCount(x, cur + [s[0]], inQuote, s[1..]);
    }
  }

  /** The last field, which the end of the text would have completed, is not delivered. */
  function Cut(r: Rest, error: Error): Rest
    requires r.list != []
  {
    Rest(r.list[..|r.list| - 1], error)
  }

  /** Which exception the first ill-formed escape causes; the fields before it are delivered. */
  lemma {:induction false} WhichError(x: Syntax, cur: string, inQuote: bool, s: string, e: char, rest: string)
    requires WellEscaped(x, s) && e in x.escape
    requires rest != "" ==> !Legal(x, inQuote, Escape(e, rest[0]))
    ensures Fields(x, cur, inQuote, s).list != []
    ensures Fields(x, cur, inQuote, s + [e] + rest)
         == Cut(Fields(x, cur, inQuote, s), if rest == "" then CannotEndWithEscape else UnknownEscape)
    decreases |s|
  {
    var t := s + [e] + rest;
    if s == "" {
      assert t == [e] + rest;
      assert [cur][..0] == [];
    } else if s[0] in x.escape {
      assert t[2..] == s[2..] + [e] + rest;
      WhichError(x, cur + [UnitChar(Escape(s[0], s[1]))], inQuote, s[2..], e, rest);
    } else {
      assert t[1..] == s[1..] + [e] + rest;
      if s[0] in x.c && !inQuote {
        WhichError(x, "", false, s[1..], e, rest);
        CutLater(cur, Fields(x, "", false, s[1..]), if rest == "" then CannotEndWithEscape else UnknownEscape);
      } else if s[0] in x.quote && s[0] !in x.c {
        WhichError(x, cur, !inQuote, s[1..], e, rest);
      } else {
        WhichError(x, cur + [s[0]], inQuote, s[1..], e, rest);
      }
    }
  }

  lemma CutLater(t: string, r: Rest, error: Error)
    requires r.list != []
    ensures Cut(Prepend(t, r), error) == Prepend(t, Cut(r, error))
  {}
}
