/** `offset_separator`: pieces of given lengths, the lengths possibly used again and again. */
module OffsetSeparators {
  import opened Tokens
  import opened IntegerMath

  datatype Lengths = Lengths(offsets: seq<int>, wrap: bool, partialLast: bool)

  /** Some offset at or after i takes characters. */
  predicate PositiveFrom(x: Lengths, i: nat)
    requires i <= |x.offsets|
    decreases |x.offsets| - i
  {
    i < |x.offsets| && (x.offsets[i] > 0 || PositiveFrom(x, i + 1))
  }

  /** The condition under which iteration ends on every text. */
  predicate Ends(x: Lengths) { x.wrap ==> PositiveFrom(x, 0) }

  /** How many calls may pass before one takes a character or the offsets run out. */
  function Patience(x: Lengths, i: nat): nat
    requires i <= |x.offsets|
  {
    if x.wrap && !PositiveFrom(x, i) then 2 * |x.offsets| + 1 - i else |x.offsets| - i
  }

  /** The number of characters the offset c takes from s. */
  function Taken(c: int, s: string): (k: nat)
    ensures k <= |s|
  {
    if c <= 0 then 0 else if c <= |s| then c else |s|
  }

  function IndexAfterWrap(x: Lengths, i: nat): (j: nat)
    requires i <= |x.offsets|
    ensures j <= |x.offsets|
  {
    if i == |x.offsets| && x.wrap then 0 else i
  }

  /** The tokens of s from offset number i on. */
  function Pieces(x: Lengths, i: nat, s: string): (ts: seq<string>)
    requires x.offsets != [] && i <= |x.offsets| && Ends(x)
    decreases |s|, Patience(x, i)
  {
    var j := IndexAfterWrap(x, i);
    if s == "" || j == |x.offsets| then []
    else
      var c := x.offsets[j];
      var k := Taken(c, s);
      if !x.partialLast && k < c - 1 then [] else [s[..k]] + Pieces(x, j + 1, s[k..])
  }

  class OffsetSeparator {
    const lengths: Lengths
    var currentOffset: nat

    constructor (offsets: seq<int>, wrap: bool, partialLast: bool)
      requires offsets != []
      ensures lengths == Lengths(offsets, wrap, partialLast) && currentOffset == 0 && Valid()
    {
      lengths, currentOffset := Lengths(offsets, wrap, partialLast), 0;
    }

    constructor Copy(other: OffsetSeparator)
      ensures lengths == other.lengths && currentOffset == other.currentOffset
    {
      lengths, currentOffset := other.lengths, other.currentOffset;
    }

    ghost predicate Valid()
      reads this
    {
      lengths.offsets != [] && currentOffset <= |lengths.offsets|
    }

    method Reset()
      requires Valid()
      modifies this
      ensures Valid() && currentOffset == 0
    {
      currentOffset := 0;
    }

    /** The tokens still to come when the text from pos on is left. */
    ghost function Remaining(input: string, pos: nat): Rest
      requires pos <= |input| && Valid() && Ends(lengths)
      reads this
    {
      Rest(Pieces(lengths, currentOffset, input[pos..]), NoError)
    }

    /** The next token, if there is one, is empty and takes nothing. */
    predicate Stays()
      requires Valid()
      reads this
    {
      var j := IndexAfterWrap(lengths, currentOffset);
      j < |lengths.offsets| && lengths.offsets[j] <= 0
    }

    /** Takes up to c characters into the token, which `+=` needs cleared before. */
    method Take(policy: Policy, input: string, pos: nat, c: int, tok0: string) returns (i: nat, tok: string)
      requires pos <= |input| && (policy == ByPlusEqual ==> tok0 == "")
      ensures i == Taken(c, input[pos..]) && tok == input[pos..][..i] && input[pos..][i..] == input[pos + i..]
    {
      var next := pos;
      i, tok := 0, tok0;
      while i < c
        invariant next == pos + i <= |input| && (i == 0 || i <= c)
        invariant policy == ByPlusEqual ==> tok == input[pos..next]
      {
        if next == |input| { break; }
        if policy == ByPlusEqual { tok := tok + [input[next]]; }
        i, next := i + 1, next + 1;
      }
      if policy == ByAssign { tok := input[pos..next]; }
    }

    /** `operator()`; tok0 is what the caller's token variable holds before. */
    method Next(policy: Policy, input: string, pos: nat, tok0: string) returns (call: Call, next: nat, tok: string)
      requires Valid() && pos <= |input|
      modifies this
      ensures Valid() && pos <= next <= |input|
      ensures Ends(lengths) && call == Token ==> old(Remaining(input, pos)) == Prepend(tok, Remaining(input, next))
      ensures Ends(lengths) && call != Token ==> call == End && old(Remaining(input, pos)) == NOTHING
      ensures call == Token ==> (next == pos <==> old(Stays())) && (next == pos ==> tok == "")
      // nothing ever comes of offsets that take nothing
      ensures !Ends(lengths) && pos < |input| ==> call == Token && tok == "" && next == pos
    {
      tok := if policy == ByPlusEqual then "" else tok0;
      next := pos;
      ghost var i0, s := currentOffset, input[pos..];
      if next == |input| {
        assert s == "";
        return End, next, tok;
      }
      if currentOffset == |lengths.offsets| {
        if lengths.wrap {
          currentOffset := 0;
        } else {
          return End, next, tok;
        }
      }
      assert currentOffset == IndexAfterWrap(lengths, i0);
      var c := lengths.offsets[currentOffset];
      var i;
      i, tok := Take(policy, input, next, c, tok);
      next := next + i;
      if Ends(lengths) { FirstPiece(lengths, i0, s, i); } else { NoPositive(lengths, currentOffset); }
      if !lengths.partialLast && i < c - 1 {
        return End, next, tok;
      }
      currentOffset := currentOffset + 1;
      return Token, next, tok;
    }

    /** The first n tokens when there is no positive offset to wrap to: iteration never
        ends, each call yields an empty token and stays where it is. */
    method FirstTokens(policy: Policy, input: string, pos: nat, n: nat) returns (tokens: seq<string>, next: nat)
      requires Valid() && !Ends(lengths) && pos < |input|
      modifies this
      ensures Valid() && next == pos
      ensures |tokens| == n && forall k :: 0 <= k < n ==> tokens[k] == ""
    {
      var tok := "";
      tokens, next := [], pos;
      for k := 0 to n
        invariant Valid() && next == pos
        invariant |tokens| == k && forall j :: 0 <= j < k ==> tokens[j] == ""
      {
        var call;
        call, next, tok := Next(policy, input, next, tok);
        tokens := tokens + [tok];
      }
    }
  }

  lemma {:induction false} FirstPiece(x: Lengths, i: nat, s: string, k: nat)
    requires x.offsets != [] && i <= |x.offsets| && Ends(x) && s != "" && IndexAfterWrap(x, i) < |x.offsets|
    requires k == Taken(x.offsets[IndexAfterWrap(x, i)], s)
    ensures var j := IndexAfterWrap(x, i);
      Rest(Pieces(x, i, s), NoError) ==
        if !x.partialLast && k < x.offsets[j] - 1 then NOTHING
        else Prepend(s[..k], Rest(Pieces(x, j + 1, s[k..]), NoError))
  {}

  lemma {:induction false} NoPositive(x: Lengths, i: nat)
    requires i < |x.offsets| && !PositiveFrom(x, 0)
    ensures x.offsets[i] <= 0
  {
    PositiveAfter(x, 0, i);
  }

  lemma {:induction false} PositiveAfter(x: Lengths, i: nat, j: nat)
    requires i <= j < |x.offsets| && !PositiveFrom(x, i)
    ensures x.offsets[j] <= 0
    decreases j - i
  {
    if i < j { PositiveAfter(x, i + 1, j); }
  }

  // ---- What the pieces are ----------------------------------------------

  /** The sum of the characters the offsets from i on would take. */
  function Sum(x: Lengths, i: nat): nat
    requires i <= |x.offsets|
    decreases |x.offsets| - i
  {
    if i == |x.offsets| then 0 else (if x.offsets[i] > 0 then x.offsets[i] else 0) + Sum(x, i + 1)
  }

  /** Wrapping pieces put together are the text. */
  lemma {:induction false} WrappedConcat(x: Lengths, i: nat, s: string)
    requires x.offsets != [] && i <= |x.offsets| && Ends(x) && x.wrap && x.partialLast
    ensures Concat(Pieces(x, i, s)) == s
    decreases |s|, Patience(x, i)
  {
    if s != "" {
      var j := IndexAfterWrap(x, i);
      var k := Taken(x.offsets[j], s);
      var piece, rest := s[..k], s[k..];
      assert s == piece + rest;
      WrappedConcat(x, j + 1, rest);
      ConcatFirst(piece, Pieces(x, j + 1, rest));
    }
  }

  lemma TakeBoth(s: string, k: nat, m: nat)
    requires k <= |s| && m <= |s| - k
    ensures s[..k] + s[k..][..m] == s[..k + m]
  {}

  /** Without wrapping they are the text up to the sum of the offsets. */
  lemma {:induction false} UnwrappedConcat(x: Lengths, i: nat, s: string)
    requires x.offsets != [] && i <= |x.offsets| && !x.wrap && x.partialLast
    ensures Concat(Pieces(x, i, s)) == s[..if Sum(x, i) <= |s| then Sum(x, i) else |s|]
    decreases |x.offsets| - i
  {
    if s != "" && i < |x.offsets| {
      var k := Taken(x.offsets[i], s);
      var piece, rest := s[..k], s[k..];
      UnwrappedConcat(x, i + 1, rest);
      ConcatFirst(piece, Pieces(x, i + 1, rest));
      var m := if Sum(x, i) <= |s| then Sum(x, i) else |s|;
      var m' := if Sum(x, i + 1) <= |rest| then Sum(x, i + 1) else |rest|;
      assert m == k + m';
      TakeBoth(s, k, m');
    }
  }

  /** Piece number k has the length of its offset, the offsets taken in turn; only the last
      piece may be shorter. Without `partialLast` it may be shorter by one character only. */
  lemma {:induction false} PieceLengths(x: Lengths, i: nat, s: string, k: nat)
    requires x.offsets != [] && i <= |x.offsets| && Ends(x) && k < |Pieces(x, i, s)|
    ensures x.wrap || i + k < |x.offsets|
    ensures var c := x.offsets[(i + k) % |x.offsets|];
      var piece := Pieces(x, i, s)[k];
      && (k + 1 < |Pieces(x, i, s)| ==> |piece| == if c > 0 then c else 0)
      && |piece| <= (if c > 0 then c else 0)
      && (!x.partialLast ==> |piece| >= c - 1)
    decreases k
  {
    var n, j := |x.offsets|, IndexAfterWrap(x, i);
    var t := Taken(x.offsets[j], s);
    assert i == j || i == j + n;
    if k == 0 {
      FirstTurn(i, j, n);
      if t < x.offsets[j] { assert s[t..] == ""; }
    } else {
      PieceLengths(x, j + 1, s[t..], k - 1);
      SameTurn(i, j, n, k);
    }
  }

  lemma FirstTurn(i: nat, j: nat, n: nat)
    requires j < n && (i == j || i == j + n)
    ensures i % n == j
  {
    ModSmall(j, n);
    ModPlus(j, n);
  }

  lemma SameTurn(i: nat, j: nat, n: nat, k: nat)
    requires n > 0 && (i == j || i == j + n) && k > 0
    ensures (i + k) % n == (j + 1 + (k - 1)) % n
  {
    ModPlus(j + k, n);
  }

  // ---- Short pieces when `partialLast` is off ---------------------------

  /** The offset of piece number k, and 0 once the offsets have run out. */
  function OffsetAt(x: Lengths, i: nat, k: nat): int
    requires x.offsets != [] && i <= |x.offsets|
    decreases k
  {
    var j := IndexAfterWrap(x, i);
    if j == |x.offsets| then 0 else if k == 0 then x.offsets[j] else OffsetAt(x, j + 1, k - 1)
  }

  function Positive(c: int): nat { if c > 0 then c else 0 }

  /** The characters that k full pieces take. */
  function Reach(x: Lengths, i: nat, k: nat): nat
    requires x.offsets != [] && i <= |x.offsets|
    decreases k
  {
    var j := IndexAfterWrap(x, i);
    if k == 0 || j == |x.offsets| then 0 else Positive(x.offsets[j]) + Reach(x, j + 1, k - 1)
  }

  /** `OffsetAt` takes the offsets in turn, and `Reach` adds them up. */
  lemma {:induction false} OffsetsInTurn(x: Lengths, i: nat, k: nat)
    requires x.offsets != [] && i <= |x.offsets|
    ensures x.wrap || i + k < |x.offsets| ==> OffsetAt(x, i, k) == x.offsets[(i + k) % |x.offsets|]
    ensures Reach(x, i, k + 1) == Reach(x, i, k) + Positive(OffsetAt(x, i, k))
    decreases k
  {
    var n, j := |x.offsets|, IndexAfterWrap(x, i);
    if j < n {
      if k == 0 {
        FirstTurn(i, j, n);
        assert Reach(x, j + 1, 0) == 0;
      } else {
        OffsetsInTurn(x, j + 1, k - 1);
        SameTurn(i, j, n, k);
      }
    }
  }

  /** A text of the given length ends inside the offset of piece number k. */
  predicate EndsInside(x: Lengths, i: nat, length: nat, k: nat)
    requires x.offsets != [] && i <= |x.offsets|
  {
    Reach(x, i, k) < length < Reach(x, i, k + 1)
  }

  /** It ends just one character before that offset does. */
  predicate OneShort(x: Lengths, i: nat, length: nat, k: nat)
    requires x.offsets != [] && i <= |x.offsets|
  {
    length - Reach(x, i, k) == OffsetAt(x, i, k) - 1
  }

  /** The tokens ts of s are k full pieces, and what is left at m if `kept`. */
  ghost predicate EndsWith(ts: seq<string>, s: string, k: nat, m: nat, kept: bool)
  {
    m <= |s| &&
    if kept then |ts| == k + 1 && ts[k] == s[m..] && Concat(ts) == s
    else |ts| == k && Concat(ts) == s[..m]
  }

  /** The first piece is full when the text does not end inside the first offset. */
  lemma {:induction false} FullPiece(x: Lengths, i: nat, s: string) returns (j: nat, t: nat)
    requires x.offsets != [] && i <= |x.offsets| && Ends(x)
    requires s != "" && IndexAfterWrap(x, i) < |x.offsets| && !EndsInside(x, i, |s|, 0)
    ensures j == IndexAfterWrap(x, i) + 1 <= |x.offsets| && t == Positive(OffsetAt(x, i, 0)) <= |s|
    ensures Pieces(x, i, s) == [s[..t]] + Pieces(x, j, s[t..])
    ensures |s[t..]| < |s| || Patience(x, j) < Patience(x, i)
  {
    j, t := IndexAfterWrap(x, i) + 1, Positive(OffsetAt(x, i, 0));
    ReachOne(x, i);
    assert Taken(OffsetAt(x, i, 0), s) == t;
  }

  lemma {:induction false} ReachOne(x: Lengths, i: nat)
    requires x.offsets != [] && i <= |x.offsets|
    ensures Reach(x, i, 0) == 0 && Reach(x, i, 1) == Positive(OffsetAt(x, i, 0))
  {
    OffsetsInTurn(x, i, 0);
  }

  lemma {:induction false} InsideLater(x: Lengths, i: nat, j: nat, length: nat, length': nat, k: nat)
    requires x.offsets != [] && i <= |x.offsets| && IndexAfterWrap(x, i) < |x.offsets| && j == IndexAfterWrap(x, i) + 1
    requires length == length' + Positive(OffsetAt(x, i, 0))
    ensures EndsInside(x, j, length', k) <==> EndsInside(x, i, length, k + 1)
    ensures OneShort(x, j, length', k) <==> OneShort(x, i, length, k + 1)
    ensures Reach(x, i, k + 1) == Positive(OffsetAt(x, i, 0)) + Reach(x, j, k)
  {}

  /** If the text ends inside offset number k, exactly the k pieces before it are full;
      what is left is one more piece if it is one character short, and is lost otherwise. */
  lemma {:induction false} LastPiece(x: Lengths, i: nat, s: string, k: nat)
    requires x.offsets != [] && i <= |x.offsets| && Ends(x) && !x.partialLast
    requires EndsInside(x, i, |s|, k)
    ensures EndsWith(Pieces(x, i, s), s, k, Reach(x, i, k), OneShort(x, i, |s|, k))
    decreases k
  {
    if k == 0 {
      OnlyPiece(x, i, s);
    } else {
      NotInsideEarlier(x, i, |s|, k);
      var j, t := FullPiece(x, i, s);
      var rest := s[t..];
      InsideLater(x, i, j, |s|, |rest|, k - 1);
      LastPiece(x, j, rest, k - 1);
      PieceInFront(s, t, rest, Reach(x, j, k - 1), Pieces(x, j, rest),
                   Pieces(x, i, s), k, Reach(x, i, k), OneShort(x, i, |s|, k));
    }
  }

  lemma {:induction false} OnlyPiece(x: Lengths, i: nat, s: string)
    requires x.offsets != [] && i <= |x.offsets| && Ends(x) && !x.partialLast && EndsInside(x, i, |s|, 0)
    ensures EndsWith(Pieces(x, i, s), s, 0, 0, OneShort(x, i, |s|, 0))
  {
    ReachOne(x, i);
    assert s[..|s|] == s && s[|s|..] == "";
    ConcatFirst(s, []);
  }

  lemma {:induction false} PieceInFront(s: string, t: nat, rest: string, m': nat, more: seq<string>,
                                        ts: seq<string>, k: nat, m: nat, kept: bool)
    requires t <= |s| && rest == s[t..] && ts == [s[..t]] + more
    requires k > 0 && m == t + m' && EndsWith(more, rest, k - 1, m', kept)
    ensures EndsWith(ts, s, k, m, kept)
  {
    ConcatFirst(s[..t], more);
    assert s[..t] + rest == s;
    assert rest[m'..] == s[m..];
    TakeBoth(s, t, m');
  }

  /** If it ends inside none, all pieces are full ... */
  lemma {:induction false} AllPiecesFull(x: Lengths, i: nat, s: string)
    requires x.offsets != [] && i <= |x.offsets| && Ends(x)
    requires forall k: nat :: !EndsInside(x, i, |s|, k)
    ensures forall k :: 0 <= k < |Pieces(x, i, s)| ==> |Pieces(x, i, s)[k]| == Positive(OffsetAt(x, i, k))
    decreases |s|, Patience(x, i)
  {
    if s != "" && IndexAfterWrap(x, i) < |x.offsets| {
      var j, t := FullPiece(x, i, s);
      StillNotInside(x, i, j, s, t);
      AllPiecesFull(x, j, s[t..]);
      FullInFront(x, i, j, s[..t], Pieces(x, j, s[t..]));
    }
  }

  lemma {:induction false} StillNotInside(x: Lengths, i: nat, j: nat, s: string, t: nat)
    requires x.offsets != [] && i <= |x.offsets| && IndexAfterWrap(x, i) < |x.offsets| && j == IndexAfterWrap(x, i) + 1
    requires t == Positive(OffsetAt(x, i, 0)) <= |s| && forall k: nat :: !EndsInside(x, i, |s|, k)
    ensures forall k: nat :: !EndsInside(x, j, |s[t..]|, k)
  {
    if k: nat :| EndsInside(x, j, |s[t..]|, k) {
      InsideLater(x, i, j, |s|, |s[t..]|, k);
    }
  }

  lemma {:induction false} FullInFront(x: Lengths, i: nat, j: nat, piece: string, more: seq<string>)
    requires x.offsets != [] && i <= |x.offsets| && IndexAfterWrap(x, i) < |x.offsets| && j == IndexAfterWrap(x, i) + 1
    requires |piece| == Positive(OffsetAt(x, i, 0))
    ensures forall k :: 0 < k <= |more| ==> OffsetAt(x, i, k) == OffsetAt(x, j, k - 1)
    ensures (forall k :: 0 <= k < |more| ==> |more[k]| == Positive(OffsetAt(x, j, k))) ==>
      forall k :: 0 <= k < |more| + 1 ==> |([piece] + more)[k]| == Positive(OffsetAt(x, i, k))
  {}

  /** ... and `partialLast` makes no difference. */
  lemma {:induction false} PartialLastIrrelevant(x: Lengths, i: nat, s: string)
    requires x.offsets != [] && i <= |x.offsets| && Ends(x) && !x.partialLast
    requires forall k: nat :: !EndsInside(x, i, |s|, k)
    ensures Ends(x.(partialLast := true))
    ensures Pieces(x, i, s) == Pieces(x.(partialLast := true), i, s)
    decreases |s|, Patience(x, i)
  {
    SamePositive(x, 0);
    if s != "" && IndexAfterWrap(x, i) < |x.offsets| {
      var j, t := FullPiece(x, i, s);
      StillNotInside(x, i, j, s, t);
      PartialLastIrrelevant(x, j, s[t..]);
    }
  }

  lemma {:induction false} SamePositive(x: Lengths, i: nat)
    requires i <= |x.offsets|
    ensures PositiveFrom(x, i) == PositiveFrom(x.(partialLast := true), i)
    decreases |x.offsets| - i
  {
    if i < |x.offsets| { SamePositive(x, i + 1); }
  }

  ghost predicate HasShortPiece(x: Lengths, i: nat, s: string)
    requires x.offsets != [] && i <= |x.offsets| && Ends(x)
  {
    exists k :: 0 <= k < |Pieces(x, i, s)| && |Pieces(x, i, s)[k]| != Positive(OffsetAt(x, i, k))
  }

  /** With `partialLast` off a short piece is delivered exactly when the text ends one
      character before the offset it ends inside. */
  lemma {:induction false} ShortPieceExact(x: Lengths, i: nat, s: string)
    requires x.offsets != [] && i <= |x.offsets| && Ends(x) && !x.partialLast
    ensures HasShortPiece(x, i, s) <==> exists k: nat :: EndsInside(x, i, |s|, k) && OneShort(x, i, |s|, k)
  {
    var ts := Pieces(x, i, s);
    if k: nat :| EndsInside(x, i, |s|, k) {
      LastPiece(x, i, s, k);
      OffsetsInTurn(x, i, k);
      if OneShort(x, i, |s|, k) {
        assert |ts[k]| != Positive(OffsetAt(x, i, k));
      } else {
        OnlyOneInside(x, i, |s|, k);
        FullBefore(x, i, s, k);
      }
    } else {
      AllPiecesFull(x, i, s);
    }
  }

  /** No text is lost exactly when the offsets reach to its end and, if it ends inside
      one, it ends one character before that offset does. */
  lemma {:induction false} NothingLostExact(x: Lengths, i: nat, s: string)
    requires x.offsets != [] && i <= |x.offsets| && Ends(x) && !x.partialLast
    ensures Concat(Pieces(x, i, s)) == s
      <==> (x.wrap || |s| <= Sum(x, i)) && forall k: nat :: EndsInside(x, i, |s|, k) ==> OneShort(x, i, |s|, k)
  {
    if k: nat :| EndsInside(x, i, |s|, k) {
      LastPiece(x, i, s, k);
      OnlyOneInside(x, i, |s|, k);
      if !x.wrap { ReachAtMostSum(x, i, k + 1); }
    } else {
      PartialLastIrrelevant(x, i, s);
      if x.wrap {
        WrappedConcat(x.(partialLast := true), i, s);
      } else {
        UnwrappedConcat(x.(partialLast := true), i, s);
        SameSum(x, i);
        assert s[..|s|] == s;
      }
    }
  }

  lemma {:induction false} SameSum(x: Lengths, i: nat)
    requires i <= |x.offsets|
    ensures Sum(x.(partialLast := true), i) == Sum(x, i)
    decreases |x.offsets| - i
  {
    if i < |x.offsets| { SameSum(x, i + 1); }
  }

  lemma {:induction false} ReachAtMostSum(x: Lengths, i: nat, k: nat)
    requires x.offsets != [] && i <= |x.offsets| && !x.wrap
    ensures Reach(x, i, k) <= Sum(x, i)
    decreases k
  {
    if k > 0 && i < |x.offsets| { ReachAtMostSum(x, i + 1, k - 1); }
  }

  lemma {:induction false} ReachGrows(x: Lengths, i: nat, k: nat, m: nat)
    requires x.offsets != [] && i <= |x.offsets| && k <= m
    ensures Reach(x, i, k) <= Reach(x, i, m)
    decreases m - k
  {
    if k < m {
      OffsetsInTurn(x, i, m - 1);
      ReachGrows(x, i, k, m - 1);
    }
  }

  lemma {:induction false} OnlyOneInside(x: Lengths, i: nat, length: nat, k: nat)
    requires x.offsets != [] && i <= |x.offsets| && EndsInside(x, i, length, k)
    ensures forall m: nat :: EndsInside(x, i, length, m) ==> m == k
  {
    forall m: nat | EndsInside(x, i, length, m) ensures m == k {
      if m < k { ReachGrows(x, i, m + 1, k); }
      if k < m { ReachGrows(x, i, k + 1, m); }
    }
  }

  lemma {:induction false} FullBefore(x: Lengths, i: nat, s: string, k: nat)
    requires x.offsets != [] && i <= |x.offsets| && Ends(x) && !x.partialLast
    requires EndsInside(x, i, |s|, k)
    ensures forall m :: 0 <= m < k && m < |Pieces(x, i, s)| ==> |Pieces(x, i, s)[m]| == Positive(OffsetAt(x, i, m))
    decreases k
  {
    if k > 0 {
      NotInsideEarlier(x, i, |s|, k);
      var j, t := FullPiece(x, i, s);
      var more := Pieces(x, j, s[t..]);
      FullBefore(x, j, s[t..], k - 1);
      forall m | 0 < m < k && m < |more| + 1 ensures |([s[..t]] + more)[m]| == Positive(OffsetAt(x, i, m)) {
        assert |more[m - 1]| == Positive(OffsetAt(x, j, m - 1));
      }
    }
  }

  lemma {:induction false} NotInsideEarlier(x: Lengths, i: nat, length: nat, k: nat)
    requires x.offsets != [] && i <= |x.offsets| && k > 0 && EndsInside(x, i, length, k)
    ensures !EndsInside(x, i, length, 0) && length > 0 && IndexAfterWrap(x, i) < |x.offsets|
  {
    ReachGrows(x, i, 1, k);
  }

  /** A single wrapping offset: texts are kept whole exactly when their length is a multiple
      of it or one less than a multiple. */
  lemma {:induction false} SingleOffsetExact(c: int, s: string)
    requires c > 1
    ensures PositiveFrom(Lengths([c], true, false), 0)
    ensures Concat(Pieces(Lengths([c], true, false), 0, s)) == s <==> |s| % c == 0 || |s| % c == c - 1
  {
    assert PositiveFrom(Lengths([c], true, false), 0);
    SingleOffset(c, 0, s);
  }

  lemma {:induction false} SingleOffset(c: int, i: nat, s: string)
    requires c > 1 && i <= 1 && Ends(Lengths([c], true, false))
    ensures Concat(Pieces(Lengths([c], true, false), i, s)) == s <==> |s| % c == 0 || |s| % c == c - 1
    decreases |s|
  {
    var x := Lengths([c], true, false);
    if |s| < c {
      ModSmall(|s|, c);
      assert s[..|s|] == s && s[|s|..] == "";
      ConcatFirst(s, []);
    } else {
      var piece, rest := s[..c], s[c..];
      assert s == piece + rest;
      SingleOffset(c, 1, rest);
      ModPlus(|rest|, c);
      ConcatFirst(piece, Pieces(x, 1, rest));
      if piece + Concat(Pieces(x, 1, rest)) == s { assert Concat(Pieces(x, 1, rest)) == s[c..]; }
    }
  }
}
