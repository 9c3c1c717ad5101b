/** `char_separator` and the deprecated `char_delimiters_separator`. */
module CharSeparators {
  import opened Tokens
  import opened CharFields

  /** A pointer argument that may be null. */
  datatype Argument = Null | Given(chars: string)

  /** The characters of a string, and of a locale's class. */
  function Members(s: string): set<char> { set e | e in s }

  ghost function Class(p: char -> bool): set<char> { set e: char | p(e) }

  ghost function Chosen(a: Argument, p: char -> bool): set<char> { if a.Given? then Members(a.chars) else Class(p) }

  class CharSeparator {
    const keptDelims: string
    const droppedDelims: string
    // the locale's classes, used only by the default constructor
    const useIspunct: bool
    const useIsspace: bool
    const ispunct: char -> bool
    const isspace: char -> bool
    const keepEmpty: bool
    var outputDone: bool

    constructor (dropped: string, kept: string, keepEmpty: bool, ispunct: char -> bool, isspace: char -> bool)
      ensures droppedDelims == dropped && keptDelims == kept && this.keepEmpty == keepEmpty
      ensures !useIspunct && !useIsspace && !outputDone
      ensures Delimiters() == Delims(Members(kept) - if keepEmpty then {} else Members(dropped), Members(dropped))
    {
      droppedDelims, keptDelims, this.keepEmpty := dropped, kept, keepEmpty;
      useIspunct, useIsspace, this.ispunct, this.isspace := false, false, ispunct, isspace;
      outputDone := false;
    }

    constructor Default(ispunct: char -> bool, isspace: char -> bool)
      ensures droppedDelims == "" && keptDelims == "" && !keepEmpty && useIspunct && useIsspace
      ensures this.ispunct == ispunct && this.isspace == isspace
      ensures Delimiters() == Delims(Class(ispunct) - Class(isspace), Class(isspace))
    {
      droppedDelims, keptDelims, keepEmpty := "", "", false;
      useIspunct, useIsspace, this.ispunct, this.isspace := true, true, ispunct, isspace;
    }

    constructor Copy(other: CharSeparator)
      ensures droppedDelims == other.droppedDelims && keptDelims == other.keptDelims && keepEmpty == other.keepEmpty
      ensures useIspunct == other.useIspunct && useIsspace == other.useIsspace
      ensures ispunct == other.ispunct && isspace == other.isspace && outputDone == other.outputDone
    {
      droppedDelims, keptDelims, keepEmpty := other.droppedDelims, other.keptDelims, other.keepEmpty;
      useIspunct, useIsspace, ispunct, isspace := other.useIspunct, other.useIsspace, other.ispunct, other.isspace;
      outputDone := other.outputDone;
    }

    predicate IsKept(e: char)
    {
      if |keptDelims| != 0 then e in keptDelims else useIspunct && ispunct(e)
    }

    predicate IsDropped(e: char)
    {
      if |droppedDelims| != 0 then e in droppedDelims else useIsspace && isspace(e)
    }

    /** A character in both classes counts as kept when empty tokens are kept, and as
        dropped when they are dropped, since the latter starts by skipping. */
    ghost function Delimiters(): (d: Delims)
      ensures forall e :: e in d.kept <==> IsKept(e) && (keepEmpty || !IsDropped(e))
      ensures forall e :: e in d.dropped <==> IsDropped(e)
    {
      Delims(set e: char | IsKept(e) && (keepEmpty || !IsDropped(e)), set e: char | IsDropped(e))
    }

    /** The tokens still to come when the text from pos on is left. */
    ghost function Remaining(input: string, pos: nat): Rest
      requires pos <= |input|
      reads this
    {
      var s := input[pos..];
      Rest(if !keepEmpty then NonEmpty(Split(Delimiters(), "", s))
           else if outputDone then AfterField(Delimiters(), s)
           else Split(Delimiters(), "", s), NoError)
    }

    /** The next token, if there is one, is an empty field that the call delivers in place. */
    predicate Stays(input: string, pos: nat)
      requires pos <= |input|
      reads this
    {
      keepEmpty && !outputDone && (pos == |input| || IsDropped(input[pos]) || IsKept(input[pos]))
    }

    /** Advances over plain characters, appending them under the `+=` policy. */
    method TakeRun(policy: Policy, input: string, pos: nat, tok: string) returns (next: nat, tok': string)
      requires pos <= |input|
      ensures pos <= next <= |input|
      ensures AllPlain(Delimiters(), input[pos..next]) && (next == |input| || !IsPlain(Delimiters(), input[next]))
      ensures tok' == if policy == ByPlusEqual then tok + input[pos..next] else tok
    {
      next, tok' := pos, tok;
      while next != |input| && !IsDropped(input[next]) && !IsKept(input[next])
        invariant pos <= next <= |input| && AllPlain(Delimiters(), input[pos..next])
        invariant tok' == if policy == ByPlusEqual then tok + input[pos..next] else tok
        decreases |input| - next
      {
        assert input[pos..next + 1] == input[pos..next] + [input[next]];
        if policy == ByPlusEqual { tok' := tok' + [input[next]]; }
        next := next + 1;
      }
    }

    /** `operator()`; tok0 is what the caller's token variable holds before. */
    method Next(policy: Policy, input: string, pos: nat, tok0: string) returns (call: Call, pos': nat, tok: string)
      requires pos <= |input|
      modifies this
      ensures pos <= pos' <= |input|
      ensures Delivered(old(Remaining(input, pos)), call, tok, Remaining(input, pos'))
      ensures keepEmpty && call != Token ==> outputDone
      ensures call == Token ==> (pos' == pos <==> old(Stays(input, pos))) && (pos' == pos ==> tok == "")
    {
      if keepEmpty {
        call, pos', tok := NextKeeping(policy, input, pos, tok0);
      } else {
        call, pos', tok := NextDropping(policy, input, pos, tok0);
      }
    }

    method SkipDropped(input: string, pos: nat) returns (next: nat)
      requires pos <= |input| && !keepEmpty
      ensures pos <= next <= |input| && (next == |input| || !IsDropped(input[next]))
      ensures NonEmpty(Split(Delimiters(), "", input[pos..])) == NonEmpty(Split(Delimiters(), "", input[next..]))
    {
      next := pos;
      while next != |input| && IsDropped(input[next])
        invariant pos <= next <= |input|
        invariant NonEmpty(Split(Delimiters(), "", input[pos..])) == NonEmpty(Split(Delimiters(), "", input[next..]))
        decreases |input| - next
      {
        assert input[next..][1..] == input[next + 1..];
        DroppedFirst(Delimiters(), input[next..]);
        next := next + 1;
      }
    }

    method NextDropping(policy: Policy, input: string, pos: nat, tok0: string) returns (call: Call, next: nat, tok: string)
      requires pos <= |input| && !keepEmpty
      ensures pos <= next <= |input|
      ensures Delivered(Remaining(input, pos), call, tok, Remaining(input, next))
      ensures call == Token ==> next > pos
    {
      ghost var d := Delimiters();
      tok := if policy == ByPlusEqual then "" else tok0;
      next := SkipDropped(input, pos);
      var start := next;
      ghost var s := input[start..];
      if next == |input| {
        assert s == "";
        NothingLeft(d);
        return End, next, tok;
      }
      if IsKept(input[next]) {
        if policy == ByPlusEqual { tok := tok + [input[next]]; }
        next := next + 1;
        assert NonEmpty(Split(d, "", s)) == [input[start..next]] + NonEmpty(Split(d, "", input[next..])) by {
          assert s[1..] == input[next..] && [s[0]] == input[start..next];
          KeptFirst(d, s);
        }
      } else {
        next, tok := TakeRun(policy, input, next, tok);
        assert NonEmpty(Split(d, "", s)) == [input[start..next]] + NonEmpty(Split(d, "", input[next..])) by {
          assert s == input[start..next] + input[next..];
          RunFirst(d, input[start..next], input[next..]);
        }
      }
      if policy == ByAssign { tok := input[start..next]; }
      assert tok == input[start..next];
      assert Remaining(input, pos) == Prepend(tok, Remaining(input, next));
      return Token, next, tok;
    }

    method NextKeeping(policy: Policy, input: string, pos: nat, tok0: string) returns (call: Call, next: nat, tok: string)
      requires pos <= |input| && keepEmpty
      modifies this
      ensures pos <= next <= |input|
      ensures call != Token ==> outputDone
      ensures call == Token ==> (next == pos <==> old(Stays(input, pos))) && (next == pos ==> tok == "")
      ensures Delivered(old(Remaining(input, pos)), call, tok, Remaining(input, next))
    {
      ghost var d, s := Delimiters(), input[pos..];
      tok := if policy == ByPlusEqual then "" else tok0;
      next := pos;
      var start := next;
      assert input[start..next] == "";
      if next == |input| {
        assert s == "";
        if !outputDone {
          outputDone := true;
          if policy == ByAssign { tok := input[start..next]; }
          return Token, next, tok;
        } else {
          return End, next, tok;
        }
      }
      if IsKept(input[next]) {
        if !outputDone {
          EmptyFieldFirst(d, s);
          outputDone := true;
        } else {
          if policy == ByPlusEqual { tok := tok + [input[next]]; }
          next := next + 1;
          outputDone := false;
          assert s[1..] == input[next..];
          assert input[start..next] == [s[0]];
        }
      } else if !outputDone && IsDropped(input[next]) {
        EmptyFieldFirst(d, s);
        outputDone := true;
      } else {
        if IsDropped(input[next]) {
          next := next + 1;
          start := next;
          assert s[1..] == input[start..];
        }
        next, tok := TakeRun(policy, input, next, tok);
        RunThenRest(d, input, start, next);
        outputDone := true;
      }
      if policy == ByAssign { tok := input[start..next]; }
      assert tok == input[start..next];
      assert [tok] == [input[start..next]];
      return Token, next, tok;
    }
  }

  /** At a delimiter the next field is empty. */
  lemma {:induction false} EmptyFieldFirst(d: Delims, s: string)
    requires s != "" && !IsPlain(d, s[0])
    ensures Split(d, "", s) == [""] + AfterField(d, s)
  {
    SplitRun(d, "", "", s);
    assert "" + s == s;
  }

  lemma {:induction false} RunThenRest(d: Delims, input: string, start: nat, next: nat)
    requires start <= next <= |input| && AllPlain(d, input[start..next])
    requires next == |input| || !IsPlain(d, input[next])
    ensures Split(d, "", input[start..]) == [input[start..next]] + AfterField(d, input[next..])
    ensures input[next..] == "" || !IsPlain(d, input[next..][0])
  {
    assert input[start..] == input[start..next] + input[next..];
    SplitRun(d, "", input[start..next], input[next..]);
    assert "" + input[start..next] == input[start..next];
  }

  // ---- char_delimiters_separator ----------------------------------------

  class CharDelimitersSeparator {
    const returnable: string
    const nonreturnable: string
    const returnDelims: bool
    const noIspunct: bool
    const noIsspace: bool
    const ispunct: char -> bool
    const isspace: char -> bool

    constructor (returnDelims: bool, returnable: Argument, nonreturnable: Argument, ispunct: char -> bool, isspace: char -> bool)
      ensures this.returnDelims == returnDelims && noIspunct == returnable.Given? && noIsspace == nonreturnable.Given?
      ensures this.ispunct == ispunct && this.isspace == isspace
      ensures var ret, non := Chosen(returnable, ispunct), Chosen(nonreturnable, isspace);
        Delimiters() == if returnDelims then Delims(ret - non, non) else Delims({}, ret + non)
    {
      this.returnDelims, this.ispunct, this.isspace := returnDelims, ispunct, isspace;
      this.returnable := if returnable.Given? then returnable.chars else "";
      this.nonreturnable := if nonreturnable.Given? then nonreturnable.chars else "";
      noIspunct, noIsspace := returnable.Given?, nonreturnable.Given?;
    }

    predicate IsRet(e: char)
    {
      if |returnable| != 0 then e in returnable else !noIspunct && ispunct(e)
    }

    predicate IsNonret(e: char)
    {
      if |nonreturnable| != 0 then e in nonreturnable else !noIsspace && isspace(e)
    }

    ghost function Delimiters(): (d: Delims)
      ensures forall e :: e in d.kept <==> returnDelims && IsRet(e) && !IsNonret(e)
      ensures forall e :: e in d.dropped <==> IsNonret(e) || (IsRet(e) && !returnDelims)
    {
      Delims(set e: char | returnDelims && IsRet(e) && !IsNonret(e),
             set e: char | IsNonret(e) || (IsRet(e) && !returnDelims))
    }

    ghost function Remaining(input: string, pos: nat): Rest
      requires pos <= |input|
    {
      Rest(NonEmpty(Split(Delimiters(), "", input[pos..])), NoError)
    }

    /** Skips the delimiters that are not returned. */
    method Skip(input: string, pos: nat) returns (next: nat)
      requires pos <= |input|
      ensures pos <= next <= |input| && (next == |input| || input[next] !in Delimiters().dropped)
      ensures NonEmpty(Split(Delimiters(), "", input[pos..])) == NonEmpty(Split(Delimiters(), "", input[next..]))
    {
      next := pos;
      while next != |input| && (IsNonret(input[next]) || (IsRet(input[next]) && !returnDelims))
        invariant pos <= next <= |input|
        invariant NonEmpty(Split(Delimiters(), "", input[pos..])) == NonEmpty(Split(Delimiters(), "", input[next..]))
        decreases |input| - next
      {
        assert input[next..][1..] == input[next + 1..];
        DroppedFirst(Delimiters(), input[next..]);
        next := next + 1;
      }
    }

    /** Appends all characters up to the next delimiter. */
    method TakeRun(input: string, pos: nat) returns (next: nat, tok: string)
      requires pos <= |input|
      ensures pos <= next <= |input| && tok == input[pos..next]
      ensures AllPlain(Delimiters(), tok) && (next == |input| || !IsPlain(Delimiters(), input[next]))
    {
      tok, next := "", pos;
      while next != |input| && !IsNonret(input[next]) && !IsRet(input[next])
        invariant pos <= next <= |input| && tok == input[pos..next]
        invariant AllPlain(Delimiters(), tok)
        decreases |input| - next
      {
        tok := tok + [input[next]];
        next := next + 1;
      }
    }

    method Next(input: string, pos: nat) returns (call: Call, next: nat, tok: string)
      requires pos <= |input|
      ensures pos <= next <= |input|
      ensures Delivered(Remaining(input, pos), call, tok, Remaining(input, next))
      ensures call == Token ==> next > pos
    {
      ghost var d := Delimiters();
      tok, next := "", pos;
      next := Skip(input, next);
      ghost var start, s := next, input[next..];
      if next == |input| {
        assert s == "";
        NothingLeft(d);
        return End, next, tok;
      }
      if IsRet(input[next]) && returnDelims {
        tok := tok + [input[next]];
        next := next + 1;
        assert s[1..] == input[next..];
        KeptFirst(d, s);
        assert tok == [s[0]];
        assert NonEmpty(Split(d, "", s)) == [tok] + NonEmpty(Split(d, "", input[next..]));
      } else {
        next, tok := TakeRun(input, next);
        assert s == tok + input[next..];
        RunFirst(d, tok, input[next..]);
        assert NonEmpty(Split(d, "", s)) == [tok] + NonEmpty(Split(d, "", input[next..]));
      }
      return Token, next, tok;
    }
  }

  /** With explicit delimiter sets the deprecated separator yields the tokens of a
      `char_separator` that drops empty tokens: returned delimiters are the kept ones, and
      when none are returned all of them are dropped. */
  lemma {:induction false} DeprecatedEquivalent(deprecated: CharDelimitersSeparator, current: CharSeparator, input: string, pos: nat)
    requires pos <= |input|
    requires deprecated.noIspunct && deprecated.noIsspace
    requires !current.keepEmpty && !current.useIspunct && !current.useIsspace
    requires if deprecated.returnDelims
      then current.keptDelims == deprecated.returnable && current.droppedDelims == deprecated.nonreturnable
      else current.keptDelims == "" && current.droppedDelims == deprecated.returnable + deprecated.nonreturnable
    ensures deprecated.Remaining(input, pos) == current.Remaining(input, pos)
  {
    var d, d' := deprecated.Delimiters(), current.Delimiters();
    assert d.kept == d'.kept;
    assert d.dropped == d'.dropped;
  }

  /** By default both classify by the locale: punctuation kept, white space dropped. */
  lemma {:induction false} DefaultsEquivalent(deprecated: CharDelimitersSeparator, current: CharSeparator, input: string, pos: nat)
    requires pos <= |input|
    requires deprecated.returnDelims && deprecated.returnable == deprecated.nonreturnable == "" && !deprecated.noIspunct && !deprecated.noIsspace
    requires current.keptDelims == current.droppedDelims == "" && !current.keepEmpty && current.useIspunct && current.useIsspace
    requires deprecated.ispunct == current.ispunct && deprecated.isspace == current.isspace
    ensures deprecated.Remaining(input, pos) == current.Remaining(input, pos)
  {
    assert deprecated.Delimiters().kept == current.Delimiters().kept;
    assert deprecated.Delimiters().dropped == current.Delimiters().dropped;
  }
}
