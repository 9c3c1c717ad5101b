/** Text as fields between delimiter characters, some dropped and some kept as tokens. */
module CharFields {
  import opened Tokens

  /** Which characters delimit; a character in both sets counts as kept. */
  datatype Delims = Delims(kept: set<char>, dropped: set<char>)

  predicate IsPlain(d: Delims, e: char) { e !in d.kept && e !in d.dropped }

  /** The fields of s, cur being the part of the first one read already; a kept delimiter
      is a token of its own between its two fields. */
  function Split(d: Delims, cur: string, s: string): seq<string>
    decreases |s|
  {
    if s == "" then [cur]
    else if s[0] in d.kept then [cur, [s[0]]] + Split(d, "", s[1..])
    else if s[0] in d.dropped then [cur] + Split(d, "", s[1..])
    else Split(d, cur + [s[0]], s[1..])
  }

  /** What is left to deliver once the field that ends at s has been. */
  function AfterField(d: Delims, s: string): seq<string>
  {
    if s == "" then []
    else if s[0] in d.kept then [[s[0]]] + Split(d, "", s[1..])
    else if s[0] in d.dropped then Split(d, "", s[1..])
    else Split(d, "", s)
  }

  function NonEmpty(ts: seq<string>): seq<string>
  {
    if ts == [] then [] else (if ts[0] == "" then [] else [ts[0]]) + NonEmpty(ts[1..])
  }

  ghost predicate AllPlain(d: Delims, s: string) { forall i :: 0 <= i < |s| ==> IsPlain(d, s[i]) }

  /** A run of plain characters up to a delimiter or the end is one field. */
  lemma {:induction false} SplitRun(d: Delims, cur: string, run: string, rest: string)
    requires AllPlain(d, run) && (rest == "" || !IsPlain(d, rest[0]))
    ensures Split(d, cur, run + rest) == [cur + run] + AfterField(d, rest)
    decreases |run|
  {
    if run == "" {
      assert run + rest == rest && cur + run == cur;
      if rest != "" && rest[0] in d.kept { assert [cur, [rest[0]]] == [cur] + [[rest[0]]]; }
    } else {
      assert (run + rest)[1..] == run[1..] + rest;
      SplitRun(d, cur + [run[0]], run[1..], rest);
      assert cur + [run[0]] + run[1..] == cur + run;
    }
  }

  lemma {:induction false} NonEmptyAppend(a: seq<string>, b: seq<string>)
    ensures NonEmpty(a + b) == NonEmpty(a) + NonEmpty(b)
  {
    if a == [] {
      assert a + b == b;
    } else {
      assert (a + b)[1..] == a[1..] + b;
      NonEmptyAppend(a[1..], b);
    }
  }

  /** Without empty tokens, what is left after a field is what any text there would give. */
  lemma {:induction false} AfterFieldNonEmpty(d: Delims, rest: string)
    requires rest == "" || !IsPlain(d, rest[0])
    ensures NonEmpty(AfterField(d, rest)) == NonEmpty(Split(d, "", rest))
  {
    SplitRun(d, "", "", rest);
    assert "" + rest == rest && "" + "" == "";
    NonEmptyAppend([""], AfterField(d, rest));
    assert NonEmpty([""]) == [] by { assert [""][1..] == []; }
  }

  lemma {:induction false} NonEmptyFirst(t: string, more: seq<string>)
    ensures NonEmpty([t] + more) == (if t == "" then [] else [t]) + NonEmpty(more)
  {
    assert ([t] + more)[1..] == more;
  }

  /** How the next token comes off the text when empty tokens are dropped. */
  lemma {:induction false} DroppedFirst(d: Delims, s: string)
    requires s != "" && s[0] in d.dropped && s[0] !in d.kept
    ensures NonEmpty(Split(d, "", s)) == NonEmpty(Split(d, "", s[1..]))
  {
    NonEmptyFirst("", Split(d, "", s[1..]));
  }

  lemma {:induction false} KeptFirst(d: Delims, s: string)
    requires s != "" && s[0] in d.kept
    ensures NonEmpty(Split(d, "", s)) == [[s[0]]] + NonEmpty(Split(d, "", s[1..]))
  {
    var more := Split(d, "", s[1..]);
    assert ["", [s[0]]] + more == [""] + ([[s[0]]] + more);
    NonEmptyFirst("", [[s[0]]] + more);
    NonEmptyFirst([s[0]], more);
  }

  lemma {:induction false} RunFirst(d: Delims, run: string, rest: string)
    requires run != "" && AllPlain(d, run) && (rest == "" || !IsPlain(d, rest[0]))
    ensures NonEmpty(Split(d, "", run + rest)) == [run] + NonEmpty(Split(d, "", rest))
  {
    SplitRun(d, "", run, rest);
    assert "" + run == run;
    NonEmptyFirst(run, AfterField(d, rest));
    AfterFieldNonEmpty(d, rest);
  }

  lemma {:induction false} NothingLeft(d: Delims)
    ensures NonEmpty(Split(d, "", "")) == []
  {
    assert [""][1..] == [];
  }

  // ---- Properties of the fields -----------------------------------------

  function CountKept(d: Delims, s: string): nat
  {
    if s == "" then 0 else (if s[0] in d.kept then 1 else 0) + CountKept(d, s[1..])
  }

  function CountDropped(d: Delims, s: string): nat
  {
    if s == "" then 0 else (if s[0] in d.dropped && s[0] !in d.kept then 1 else 0) + CountDropped(d, s[1..])
  }

  /** s without its dropped delimiters. */
  function WithoutDropped(d: Delims, s: string): string
  {
    if s == "" then ""
    else (if s[0] in d.dropped && s[0] !in d.kept then "" else [s[0]]) + WithoutDropped(d, s[1..])
  }

  /** One token, and one more for each dropped and two more for each kept delimiter. */
  lemma {:induction false} SplitCount(d: Delims, cur: string, s: string)
    ensures |Split(d, cur, s)| == 1 + CountDropped(d, s) + 2 * CountKept(d, s)
    decreases |s|
  {
    if s != "" {
      SplitCount(d, "", s[1..]);
      SplitCount(d, cur + [s[0]], s[1..]);
    }
  }

  lemma {:induction false} ConcatTwo(cur: string, t: string, more: seq<string>)
    ensures Concat([cur, t] + more) == cur + (t + Concat(more))
  {
    assert [cur, t] + more == [cur] + ([t] + more);
    ConcatFirst(cur, [t] + more);
    ConcatFirst(t, more);
  }

  lemma Glue(a: string, b: string, c: string)
    ensures (a + b) + c == a + (b + c) && "" + c == c
  {}

  /** The tokens put together are the text without its dropped delimiters. */
  lemma {:induction false} SplitConcat(d: Delims, cur: string, s: string)
    ensures Concat(Split(d, cur, s)) == cur + WithoutDropped(d, s)
    decreases |s|
  {
    if s == "" {
      assert [cur][1..] == [] && cur + "" == cur;
    } else {
      var more, kept := Split(d, "", s[1..]), WithoutDropped(d, s[1..]);
      Glue(cur, [s[0]], kept);
      if IsPlain(d, s[0]) {
        SplitConcat(d, cur + [s[0]], s[1..]);
      } else {
        SplitConcat(d, "", s[1..]);
        ConcatTwo(cur, [s[0]], more);
        ConcatFirst(cur, more);
      }
    }
  }

  /** Dropping the empty tokens loses none of the text. */
  lemma {:induction false} NonEmptyConcat(ts: seq<string>)
    ensures Concat(NonEmpty(ts)) == Concat(ts)
    ensures forall t :: t in NonEmpty(ts) ==> t != ""
  {
    if ts != [] {
      NonEmptyConcat(ts[1..]);
      if ts[0] != "" {
        assert ([ts[0]] + NonEmpty(ts[1..]))[1..] == NonEmpty(ts[1..]);
      } else {
        assert [] + NonEmpty(ts[1..]) == NonEmpty(ts[1..]);
      }
    }
  }

  /** Just the empty tokens go: a token between others stays, unless it is empty. */
  lemma {:induction false} NonEmptyFilters(a: seq<string>, t: string, b: seq<string>)
    ensures NonEmpty(a + [t] + b) == NonEmpty(a) + (if t == "" then [] else [t]) + NonEmpty(b)
  {
    NonEmptyAppend(a + [t], b);
    NonEmptyAppend(a, [t]);
    assert [t][1..] == [];
  }

  /** fields[0] then ds[0] then fields[1] and so on: every text is of this form. */
  function Weave(fields: seq<string>, ds: string): string
    requires |fields| == |ds| + 1
  {
    if ds == "" then fields[0] else fields[0] + [ds[0]] + Weave(fields[1..], ds[1..])
  }

  /** The same with dropped delimiters left out and kept ones as tokens. */
  function WovenTokens(d: Delims, fields: seq<string>, ds: string): seq<string>
    requires |fields| == |ds| + 1
  {
    if ds == "" then [fields[0]]
    else [fields[0]] + (if ds[0] in d.kept then [[ds[0]]] else []) + WovenTokens(d, fields[1..], ds[1..])
  }

  /** Splitting recovers exactly the plain fields and kept delimiters a text is woven from. */
  lemma {:induction false} SplitWeave(d: Delims, fields: seq<string>, ds: string)
    requires |fields| == |ds| + 1
    requires forall i :: 0 <= i < |fields| ==> AllPlain(d, fields[i])
    requires forall i :: 0 <= i < |ds| ==> !IsPlain(d, ds[i])
    ensures Split(d, "", Weave(fields, ds)) == WovenTokens(d, fields, ds)
    decreases |ds|
  {
    var f := fields[0];
    assert "" + f == f;
    if ds == "" {
      assert f + "" == f;
      SplitRun(d, "", f, "");
    } else {
      var more := Weave(fields[1..], ds[1..]);
      assert Weave(fields, ds) == f + ([ds[0]] + more);
      SplitRun(d, "", f, [ds[0]] + more);
      assert ([ds[0]] + more)[1..] == more;
      SplitWeave(d, fields[1..], ds[1..]);
      assert [f] + [] == [f];
    }
  }
}
