/** What the tokenizer functions share: the outcome of a call, and the tokens still to come. */
module Tokens {

  /** The exceptions of `escaped_list_separator`. */
  datatype Error = NoError | CannotEndWithEscape | UnknownEscape

  /** A call of a tokenizer function returns true with a token, returns false, or throws. */
  datatype Call = Token | End | Thrown(error: Error)

  /** A finite run of tokens, and the exception that ends it, if any. */
  datatype Rest = Rest(list: seq<string>, error: Error)

  /** `assign_or_plus_equal`: forward iterators assign the token from a range at the end;
      input iterators clear it and append character by character. */
  datatype Policy = ByAssign | ByPlusEqual

  const NOTHING := Rest([], NoError)

  function Prepend(t: string, r: Rest): Rest { Rest([t] + r.list, r.error) }

  /** What a call must have done when `before` was to come and `after` is now. */
  ghost predicate Delivered(before: Rest, call: Call, tok: string, after: Rest)
  {
    match call
    case Token => before == Prepend(tok, after)
    case End => before == NOTHING
    case Thrown(e) => before == Rest([], e) && e != NoError
  }

  function Concat(ts: seq<string>): string { if ts == [] then "" else ts[0] + Concat(ts[1..]) }

  lemma {:induction false} ConcatAppend(a: seq<string>, b: seq<string>)
    ensures Concat(a + b) == Concat(a) + Concat(b)
  {
    if a == [] {
      assert a + b == b;
    } else {
      assert (a + b)[1..] == a[1..] + b;
      ConcatAppend(a[1..], b);
    }
  }

  lemma ConcatFirst(t: string, ts: seq<string>)
    ensures Concat([t] + ts) == t + Concat(ts)
  {
    assert ([t] + ts)[1..] == ts;
  }

  /** The tokens to come fix the outcome of the call: two implementations, or two policies,
      that deliver from the same text deliver the same. */
  lemma DeliveredUnique(before: Rest, call: Call, tok: string, after: Rest, call': Call, tok': string, after': Rest)
    requires Delivered(before, call, tok, after) && Delivered(before, call', tok', after')
    ensures call == call' && (call == Token ==> tok == tok' && after == after')
  {
    if call == Token {
      assert before.list[0] == tok && before.list[1..] == after.list;
    }
    if call' == Token {
      assert before.list[0] == tok' && before.list[1..] == after'.list;
    }
  }
}
