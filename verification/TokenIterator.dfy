/** `token_iterator`: drives a tokenizer function over a text, one token at a time. */
module TokenIterators {
  import opened Tokens
  import opened CharFields
  import opened CharSeparators
  import opened EscapedList
  import opened OffsetSeparators

  /** The tokenizer functions of the library. */
  datatype Functor =
    | EscapedFunctor(escaped: EscapedListSeparator)
    | CharFunctor(chars: CharSeparator)
    | OffsetFunctor(offsets: OffsetSeparator)
    | DelimiterFunctor(delimiters: CharDelimitersSeparator)

  ghost function State(f: Functor): set<object>
  {
    match f
    case EscapedFunctor(e) => {e}
    case CharFunctor(c) => {c}
    case OffsetFunctor(o) => {o}
    case DelimiterFunctor(_) => {}
  }

  /** The functor is usable and its iteration comes to an end. */
  ghost predicate Usable(f: Functor)
    reads State(f)
  {
    f.OffsetFunctor? ==> f.offsets.Valid() && Ends(f.offsets.lengths)
  }

  ghost function Remaining(f: Functor, input: string, pos: nat): Rest
    requires pos <= |input| && Usable(f)
    reads State(f)
  {
    match f
    case EscapedFunctor(e) => e.Remaining(input, pos)
    case CharFunctor(c) => c.Remaining(input, pos)
    case OffsetFunctor(o) => o.Remaining(input, pos)
    case DelimiterFunctor(d) => d.Remaining(input, pos)
  }

  /** The next token, if there is one, is an empty one that does not move the position. */
  ghost predicate Stays(f: Functor, input: string, pos: nat)
    requires pos <= |input| && Usable(f)
    reads State(f)
  {
    match f
    case EscapedFunctor(_) => pos == |input|
    case CharFunctor(c) => c.Stays(input, pos)
    case OffsetFunctor(o) => o.Stays()
    case DelimiterFunctor(_) => false
  }

  /** The tokens of a whole text. Nothing comes of an empty text, and `reset` does not
      touch a `char_separator`'s memory of having delivered a field. */
  ghost function AllTokens(f: Functor, input: string): Rest
    requires Usable(f)
    reads State(f)
  {
    if input == "" then NOTHING
    else match f
      case EscapedFunctor(e) => Fields(e.syntax, "", false, input)
      case CharFunctor(c) => c.Remaining(input, 0)
      case OffsetFunctor(o) => Rest(Pieces(o.lengths, 0, input), NoError)
      case DelimiterFunctor(d) => d.Remaining(input, 0)
  }

  /** A functor passed by value. */
  method CopyOf(f: Functor) returns (g: Functor)
    requires Usable(f)
    ensures fresh(State(g)) && Usable(g)
    ensures forall input, pos :: 0 <= pos <= |input| ==> Remaining(g, input, pos) == Remaining(f, input, pos)
    ensures forall input :: AllTokens(g, input) == AllTokens(f, input)
    ensures KeepsLike(g, f)
  {
    if f.EscapedFunctor? {
      var e := new EscapedListSeparator.Copy(f.escaped);
      g := EscapedFunctor(e);
    } else if f.CharFunctor? {
      var c := new CharSeparator.Copy(f.chars);
      assert c.Delimiters().kept == f.chars.Delimiters().kept && c.Delimiters().dropped == f.chars.Delimiters().dropped;
      g := CharFunctor(c);
    } else if f.OffsetFunctor? {
      var o := new OffsetSeparator.Copy(f.offsets);
      g := OffsetFunctor(o);
    } else {
      g := f;   // has nothing that changes
    }
  }

  /** A `char_separator` that keeps empty tokens and has delivered the field it is at. */
  ghost predicate Stale(f: Functor)
    reads State(f)
  {
    f.CharFunctor? && f.chars.keepEmpty && f.chars.outputDone
  }

  ghost predicate KeepsEmpty(f: Functor) { f.CharFunctor? && f.chars.keepEmpty }

  /** g separates as f does, with the same memory. */
  ghost predicate KeepsLike(g: Functor, f: Functor)
    reads State(f), State(g)
  {
    && (Stale(g) <==> Stale(f)) && (KeepsEmpty(g) <==> KeepsEmpty(f))
    && (f.CharFunctor? ==> g.CharFunctor? && g.chars.Delimiters() == f.chars.Delimiters())
    && (f.EscapedFunctor? ==> g.EscapedFunctor? && g.escaped.syntax == f.escaped.syntax)
  }

  class TokenIterator {
    const f: Functor
    const policy: Policy
    const input: string
    const first: nat
    var begin: nat
    var valid: bool
    var tok: string
    var error: Error   // the exception that left the last call, if any

    ghost predicate Ready()
      reads this, State(f)
    {
      begin <= |input| && Usable(f) && this !in State(f)
    }

    ghost predicate Valid()
      reads this, State(f)
    {
      && Ready()
      // an iteration that has ended normally has delivered its last field
      && (!valid && error == NoError && first < |input| && KeepsEmpty(f) ==> Stale(f))
    }

    /** The current token and those after it. */
    ghost function Pending(): Rest
      requires Ready()
      reads this, State(f)
    {
      if error != NoError then Rest([], error)
      else if valid then Prepend(tok, Remaining(f, input, begin))
      else NOTHING
    }

    /** An iterator over the text from `first` on. It works on a copy of the functor; the one
        given is left as it is. */
    constructor (functor: Functor, policy: Policy, input: string, first: nat)
      requires Usable(functor) && first <= |input|
      ensures Valid() && fresh(State(f)) && KeepsEmpty(f) == KeepsEmpty(functor)
      ensures this.input == input && this.first == first && Pending() == AllTokens(functor, input[first..])
      ensures functor.CharFunctor? ==> f.CharFunctor? && f.chars.Delimiters() == functor.chars.Delimiters()
      ensures functor.EscapedFunctor? ==> f.EscapedFunctor? && f.escaped.syntax == functor.escaped.syntax
    {
      var g := CopyOf(functor);
      this.f, this.policy, this.input, this.first := g, policy, input, first;
      begin, valid, tok, error := first, false, "", NoError;
      new;
      Initialize();
    }

    method Initialize()
      requires Ready() && begin == first && !valid && error == NoError
      modifies this, State(f)
      ensures Valid() && Pending() == old(AllTokens(f, input[begin..]))
    {
      if valid { return; }
      assert input[begin..][0..] == input[begin..];
      match f {
        case EscapedFunctor(e) => e.Reset();
        case CharFunctor(c) =>
        case OffsetFunctor(o) => o.Reset();
        case DelimiterFunctor(d) =>
      }
      if begin != |input| { Apply(); } else { valid := false; }
    }

    /** One call of the functor on the iterator's own fields. When it throws, `valid` keeps
        its value: the assignment is not reached. */
    method Apply()
      requires Ready() && error == NoError
      modifies this, State(f)
      ensures Valid() && Pending() == old(Remaining(f, input, begin))
      ensures old(begin) <= begin && (error != NoError ==> valid == old(valid))
      ensures valid && error == NoError ==>
        (begin == old(begin) <==> old(Stays(f, input, begin))) && (begin == old(begin) ==> tok == "")
    {
      var call;
      match f {
        case EscapedFunctor(e) => call, begin, tok := e.Next(input, begin);
        case CharFunctor(c) => call, begin, tok := c.Next(policy, input, begin, tok);
        case OffsetFunctor(o) => call, begin, tok := o.Next(policy, input, begin, tok);
        case DelimiterFunctor(d) => call, begin, tok := d.Next(input, begin);
      }
      if call.Thrown? {
        error := call.error;
      } else {
        valid := call == Token;
      }
    }

    /** `operator++`. */
    method Increment()
      requires Valid() && valid && error == NoError
      modifies this, State(f)
      ensures Valid()
      ensures old(Pending()) == Prepend(old(tok), Pending())
      ensures old(begin) <= begin && (error != NoError ==> valid)
      ensures valid && error == NoError ==>
        (begin == old(begin) <==> old(Stays(f, input, begin))) && (begin == old(begin) ==> tok == "")
    {
      Apply();
    }

    /** `operator*`. */
    function Dereference(): string
      requires valid
      reads this
    {
      tok
    }

    /** `equal`: iterators over one text are compared by where they stand in it. */
    predicate Equal(other: TokenIterator)
      requires input == other.input
      reads this, other
    {
      if other.valid && valid then other.begin == begin else other.valid == valid
    }

    /** `tokenizer_function()`: a copy of the functor as it is now. */
    method TokenizerFunction() returns (g: Functor)
      requires Valid()
      ensures fresh(State(g)) && Usable(g) && KeepsLike(g, f)
      ensures forall text :: AllTokens(g, text) == AllTokens(f, text)
    {
      g := CopyOf(f);
    }

    /** The loop over the range up to an iterator that has ended: it ends, by comparing equal
        or by the exception, with exactly the tokens that were pending. */
    method CollectUntil(end: TokenIterator) returns (tokens: seq<string>)
      requires Valid() && this != end && end !in State(f) && input == end.input && !end.valid
      modifies this, State(f)
      ensures Valid() && (Equal(end) || error != NoError)
      ensures Rest(tokens, error) == old(Pending())
    {
      tokens := [];
      ghost var all := Pending();
      while error == NoError && !Equal(end)
        invariant Valid()
        invariant all == Rest(tokens + Pending().list, Pending().error)
        decreases |Pending().list|
      {
        ghost var t, ts := tok, tokens;
        tokens := tokens + [Dereference()];
        Increment();
        MoveFirst(ts, t, Pending().list);
      }
      assert tokens + [] == tokens;
    }
  }

  lemma MoveFirst(a: seq<string>, x: string, b: seq<string>)
    ensures a + ([x] + b) == (a + [x]) + b
  {}

  /** `tokenizer`: a text with the functor to split it. */
  class Tokenizer {
    const f: Functor
    const policy: Policy
    const text: string

    constructor (functor: Functor, policy: Policy, text: string)
      requires Usable(functor)
      ensures this.text == text && this.policy == policy && fresh(State(f)) && Usable(f)
      ensures AllTokens(f, text) == AllTokens(functor, text) && KeepsLike(f, functor)
    {
      var g := CopyOf(functor);
      f, this.policy, this.text := g, policy, text;
    }

    method Begin() returns (it: TokenIterator)
      requires Usable(f)
      ensures fresh(it) && fresh(State(it.f)) && it.Valid() && it.input == text && it.first == 0
      ensures it.Pending() == AllTokens(f, text) && KeepsEmpty(it.f) == KeepsEmpty(f)
      ensures f.CharFunctor? ==> it.f.CharFunctor? && it.f.chars.Delimiters() == f.chars.Delimiters()
    {
      assert text[0..] == text;
      it := new TokenIterator(f, policy, text, 0);
    }

    method End() returns (it: TokenIterator)
      requires Usable(f)
      ensures fresh(it) && it.input == text && !it.valid
    {
      it := new TokenIterator(f, policy, text, |text|);
    }

    /** The loop from `begin()` to `end()`. */
    method All() returns (tokens: seq<string>, error: Error)
      requires Usable(f)
      ensures Rest(tokens, error) == AllTokens(f, text)
    {
      var it := Begin();
      var end := End();
      tokens := it.CollectUntil(end);
      error := it.error;
    }
  }

  // ---- Comparing iterators ----------------------------------------------

  /** Two iterators that stand at the same place, one of them then moved on: they compare
      equal exactly when its next token is delivered in place, which only an empty one is. */
  method IncrementOne(a: TokenIterator, b: TokenIterator)
    requires a != b && a !in State(b.f) && a.input == b.input
    requires a.valid && b.Valid() && b.valid && b.error == NoError && a.begin == b.begin
    modifies b, State(b.f)
    ensures b.Valid() && old(b.Pending()) == Prepend(old(b.tok), b.Pending())
    ensures b.error == NoError ==> (a.Equal(b) <==> b.valid && old(Stays(b.f, b.input, b.begin)))
    ensures b.error == NoError && a.Equal(b) ==> b.tok == ""
  {
    b.Increment();
  }

  /** If one of two iterators of a text has ended, they are equal exactly when the other has,
      that is, when neither or both have tokens to come. */
  lemma EqualAtEnd(a: TokenIterator, b: TokenIterator)
    requires a.Ready() && b.Ready() && a.input == b.input && a.error == b.error == NoError
    requires !a.valid || !b.valid
    ensures a.Equal(b) <==> (a.Pending() == NOTHING <==> b.Pending() == NOTHING)
  {
    if a.valid { assert |a.Pending().list| > 0; }
    if b.valid { assert |b.Pending().list| > 0; }
  }

  /** The two fields of "a,": an iterator at the first and one at the second are equal. */
  method EqualAtDifferentTokens() returns (a: TokenIterator, b: TokenIterator)
    ensures a.input == b.input && a.valid && b.valid && a.tok == "a" && b.tok == ""
    ensures a.Equal(b)
  {
    var f := new EscapedListSeparator("\\", ",", "\"");
    TwoFields(f.syntax);
    assert "a,"[0..] == "a,";
    a := new TokenIterator(EscapedFunctor(f), ByAssign, "a,", 0);
    SecondFieldLeft(a.f.escaped, a.begin, a.tok);
    b := new TokenIterator(EscapedFunctor(f), ByAssign, "a,", 0);
    SecondFieldLeft(b.f.escaped, b.begin, b.tok);
    IncrementOne(a, b);
  }

  lemma {:induction false} TwoFields(x: Syntax)
    requires x == Syntax("\\", ",", "\"")
    ensures Fields(x, "", false, "a,") == Rest(["a", ""], NoError)
    ensures Fields(x, "", false, ",") == Rest(["", ""], NoError)
    ensures Fields(x, "", false, "") == Rest([""], NoError)
  {
    assert "a,"[1..] == "," && ","[1..] == "" && "" + "a" == "a";
    assert Fields(x, "a", false, ",") == Rest(["a", ""], NoError);
  }

  /** With the first field taken, all of the text is. */
  lemma {:induction false} SecondFieldLeft(e: EscapedListSeparator, pos: nat, tok: string)
    requires e.syntax == Syntax("\\", ",", "\"") && pos <= 2
    requires Prepend(tok, e.Remaining("a,", pos)) == Rest(["a", ""], NoError)
    ensures pos == 2 && tok == "a"
  {
    TwoFields(e.syntax);
    assert "a,"[0..] == "a," && "a,"[1..] == ",";
    assert |e.Remaining("a,", pos).list| == 1;
    assert Prepend(tok, e.Remaining("a,", pos)).list[0] == tok;
  }

  // ---- A char_separator's memory ----------------------------------------

  /** The empty field in front of a leading delimiter is what the memory suppresses. */
  lemma {:induction false} StaleTokens(c: CharSeparator, input: string)
    requires c.keepEmpty && input != ""
    ensures var all := Split(c.Delimiters(), "", input);
      AllTokens(CharFunctor(c), input) ==
        Rest(if c.outputDone && !IsPlain(c.Delimiters(), input[0]) then all[1..] else all, NoError)
  {
    assert input[0..] == input;
    if !IsPlain(c.Delimiters(), input[0]) {
      EmptyFieldFirst(c.Delimiters(), input);
      assert ([""] + AfterField(c.Delimiters(), input))[1..] == AfterField(c.Delimiters(), input);
    }
  }

  /** An iterator yields all tokens of a text exactly when its functor has not just delivered
      a field or the text does not start with a delimiter. */
  lemma {:induction false} WholeSplitExact(c: CharSeparator, input: string)
    requires c.keepEmpty && input != ""
    ensures AllTokens(CharFunctor(c), input) == Rest(Split(c.Delimiters(), "", input), NoError)
      <==> !c.outputDone || IsPlain(c.Delimiters(), input[0])
  {
    StaleTokens(c, input);
    SplitCount(c.Delimiters(), "", input);
  }

  /** Two texts, the second split by the functor taken from the iterator that has finished
      the first: its leading empty field, if it has one, is lost. */
  method SplitWithUsedFunctor(dropped: string, kept: string, policy: Policy, ispunct: char -> bool, isspace: char -> bool,
                              first: string, second: string) returns (tokens: seq<string>, again: seq<string>)
    requires first != "" && second != ""
    ensures var d := Delims(Members(kept), Members(dropped));
      && tokens == Split(d, "", first)
      && again == if IsPlain(d, second[0]) then Split(d, "", second) else Split(d, "", second)[1..]
  {
    var sep := new CharSeparator(dropped, kept, true, ispunct, isspace);
    ghost var d := Delims(Members(kept), Members(dropped));
    assert sep.Delimiters() == d;
    StaleTokens(sep, first);
    var tokenizer := new Tokenizer(CharFunctor(sep), policy, first);
    var it := tokenizer.Begin();
    var end := tokenizer.End();
    tokens := it.CollectUntil(end);
    var used := it.TokenizerFunction();
    StaleTokens(used.chars, second);
    var tokenizer2 := new Tokenizer(used, policy, second);
    var error;
    again, error := tokenizer2.All();
  }

  // ---- Whole iterations -------------------------------------------------

  /** Fields written with escapes, between quotes or not, and read through an iterator come
      back, except that a single empty field without quotes is an empty text: no field. */
  method WriteAndRead(x: Syntax, pen: Pen, policy: Policy, fields: seq<string>) returns (back: seq<string>, error: Error)
    requires fields != [] && Writes(x, pen) && NewlineFree(x, pen)
    ensures back == (if fields == [""] && !pen.quoting then [] else fields) && error == NoError
  {
    var text := Written(x, pen, fields);
    RoundTrip(x, pen, fields);
    WrittenEmpty(x, pen, fields);
    var f := new EscapedListSeparator(x.escape, x.c, x.quote);
    var tokenizer := new Tokenizer(EscapedFunctor(f), policy, text);
    back, error := tokenizer.All();
  }

  lemma {:induction false} WrittenEmpty(x: Syntax, pen: Pen, fields: seq<string>)
    requires fields != []
    ensures Written(x, pen, fields) == "" <==> fields == [""] && !pen.quoting
  {
    var g := Spelling(x, pen, fields[0]);
    assert FieldText([g]) == SegmentText(g) by { assert [g][1..] == [] && SegmentText(g) + "" == SegmentText(g); }
    if !pen.quoting && fields[0] != "" { assert |UnitText(g.units[0])| > 0; }
    if |fields| == 1 { assert fields == [fields[0]]; }
  }

  /** Splitting with empty tokens kept: the number of tokens, and the text they make up. */
  method SplitKeeping(dropped: string, kept: string, policy: Policy, ispunct: char -> bool, isspace: char -> bool,
                      text: string) returns (tokens: seq<string>)
    requires text != ""
    ensures var d := Delims(Members(kept), Members(dropped));
      && tokens == Split(d, "", text)
      && |tokens| == 1 + CountDropped(d, text) + 2 * CountKept(d, text)
      && Concat(tokens) == WithoutDropped(d, text)
  {
    var sep := new CharSeparator(dropped, kept, true, ispunct, isspace);
    ghost var d := Delims(Members(kept), Members(dropped));
    assert sep.Delimiters() == d;
    StaleTokens(sep, text);
    SplitCount(d, "", text);
    SplitConcat(d, "", text);
    assert "" + WithoutDropped(d, text) == WithoutDropped(d, text);
    var tokenizer := new Tokenizer(CharFunctor(sep), policy, text);
    var error;
    tokens, error := tokenizer.All();
  }

  /** With empty tokens dropped, a delimiter listed as both kept and dropped is dropped. */
  method SplitDropping(dropped: string, kept: string, policy: Policy, ispunct: char -> bool, isspace: char -> bool,
                       text: string) returns (tokens: seq<string>)
    ensures SplitsDropping(Delims(Members(kept) - Members(dropped), Members(dropped)), text, tokens)
  {
    var sep := new CharSeparator(dropped, kept, false, ispunct, isspace);
    tokens := DropEmpty(CharFunctor(sep), sep.Delimiters(), policy, text);
  }

  /** The default `char_separator`: punctuation kept, white space dropped. */
  method SplitByClass(policy: Policy, ispunct: char -> bool, isspace: char -> bool, text: string)
    returns (tokens: seq<string>)
    ensures SplitsDropping(Delims(Class(ispunct) - Class(isspace), Class(isspace)), text, tokens)
  {
    var sep := new CharSeparator.Default(ispunct, isspace);
    tokens := DropEmpty(CharFunctor(sep), sep.Delimiters(), policy, text);
  }

  /** The deprecated separator, its two kinds of delimiters listed or taken from the locale. */
  method SplitDeprecated(returnDelims: bool, returnable: Argument, nonreturnable: Argument, policy: Policy,
                         ispunct: char -> bool, isspace: char -> bool, text: string) returns (tokens: seq<string>)
    ensures var ret, non := Chosen(returnable, ispunct), Chosen(nonreturnable, isspace);
      SplitsDropping(if returnDelims then Delims(ret - non, non) else Delims({}, ret + non), text, tokens)
  {
    var sep := new CharDelimitersSeparator(returnDelims, returnable, nonreturnable, ispunct, isspace);
    tokens := DropEmpty(DelimiterFunctor(sep), sep.Delimiters(), policy, text);
  }

  /** A `tokenizer` without arguments: split at punctuation and white space, keep neither. */
  method SplitByDefault(policy: Policy, ispunct: char -> bool, isspace: char -> bool, text: string)
    returns (tokens: seq<string>)
    ensures SplitsDropping(Delims({}, set e: char | ispunct(e) || isspace(e)), text, tokens)
  {
    tokens := SplitDeprecated(false, Null, Null, policy, ispunct, isspace, text);
    assert Class(ispunct) + Class(isspace) == set e: char | ispunct(e) || isspace(e);
  }

  /** The tokens are those of the split text that are not empty; they make up the text
      without its dropped delimiters. */
  ghost predicate SplitsDropping(d: Delims, text: string, tokens: seq<string>)
  {
    && tokens == NonEmpty(Split(d, "", text))
    && (forall t :: t in tokens ==> t != "")
    && Concat(tokens) == WithoutDropped(d, text)
  }

  method DropEmpty(f: Functor, ghost d: Delims, policy: Policy, text: string) returns (tokens: seq<string>)
    requires f.DelimiterFunctor? || (f.CharFunctor? && !f.chars.keepEmpty)
    requires d == if f.CharFunctor? then f.chars.Delimiters() else f.delimiters.Delimiters()
    ensures SplitsDropping(d, text, tokens)
  {
    assert text[0..] == text;
    NothingLeft(d);
    NonEmptyConcat(Split(d, "", text));
    SplitConcat(d, "", text);
    assert "" + WithoutDropped(d, text) == WithoutDropped(d, text);
    var tokenizer := new Tokenizer(f, policy, text);
    var error;
    tokens, error := tokenizer.All();
  }

  /** Splitting by offsets, some of them positive if they are used again and again. */
  method SplitByOffsets(offsets: seq<int>, wrap: bool, partialLast: bool, policy: Policy, text: string)
    returns (tokens: seq<string>)
    requires offsets != [] && (wrap ==> exists k :: 0 <= k < |offsets| && offsets[k] > 0)
    ensures Ends(Lengths(offsets, wrap, partialLast)) && tokens == Pieces(Lengths(offsets, wrap, partialLast), 0, text)
    ensures wrap && partialLast ==> Concat(tokens) == text
    ensures forall k :: 0 <= k < |tokens| - 1 ==> |tokens[k]| == Positive(offsets[k % |offsets|])
  {
    var x := Lengths(offsets, wrap, partialLast);
    if wrap {
      var k :| 0 <= k < |offsets| && offsets[k] > 0;
      if !PositiveFrom(x, 0) { PositiveAfter(x, 0, k); }
      if partialLast { WrappedConcat(x, 0, text); }
    }
    forall k | 0 <= k < |Pieces(x, 0, text)| - 1
      ensures |Pieces(x, 0, text)[k]| == Positive(offsets[k % |offsets|])
    {
      PieceLengths(x, 0, text, k);
    }
    var f := new OffsetSeparator(offsets, wrap, partialLast);
    var tokenizer := new Tokenizer(OffsetFunctor(f), policy, text);
    var error;
    tokens, error := tokenizer.All();
  }
}
