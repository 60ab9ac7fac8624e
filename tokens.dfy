/**
 Navigation over the token stream of a preview parse: the nearest non-hidden
 token after or before a position, and the token under the editor cursor
 (ParsingUtils.nextRealToken, previousRealToken and getTokenUnderCursor).
 */
module Tokens {
  import opened Wrappers

  /** Token type of the end-of-file token in the ANTLR runtime. */
  const EOF: int := -1
  /** Channel of ordinary tokens. */
  const DEFAULT_CHANNEL: int := 0
  /** Channel of whitespace and comment tokens that the parser does not see. */
  const HIDDEN_CHANNEL: int := 1

  /** A token of the input text: its type, channel and the inclusive character range it spans. */
  datatype Token = Token(ttype: int, channel: int, startIndex: int, stopIndex: int)
  {
    predicate IsHidden() {
      channel == HIDDEN_CHANNEL
    }

    /** The cursor offset lies in the half-open span [startIndex, stopIndex + 1). */
    predicate Covers(offset: int) {
      startIndex <= offset < stopIndex + 1
    }
  }

  /** Outcome of a scan: no token (null in the source), the stream element at
      an index, or an EOF token made afresh because the scan met a hidden EOF. */
  datatype Lookup = NotFound | Real(index: nat) | SyntheticEof

  /** A token that the forward scan steps over: hidden, and not an EOF. */
  predicate Skipped(t: Token) {
    t.IsHidden() && t.ttype != EOF
  }

  /** Every token with index in [lo, hi) is skipped by the forward scan. */
  ghost predicate AllSkipped(tokens: seq<Token>, lo: int, hi: int) {
    forall k :: lo <= k < hi && 0 <= k < |tokens| ==> Skipped(tokens[k])
  }

  /** Every token with index in [lo, hi) is on the hidden channel. */
  ghost predicate AllHidden(tokens: seq<Token>, lo: int, hi: int) {
    forall k :: lo <= k < hi && 0 <= k < |tokens| ==> tokens[k].IsHidden()
  }

  /** Where a forward scan that starts at index j stops. */
  function ScanForward(tokens: seq<Token>, j: nat): Lookup
    decreases |tokens| - j
  {
    if j >= |tokens| then NotFound
    else if !tokens[j].IsHidden() then Real(j)
    else if tokens[j].ttype == EOF then SyntheticEof
    else ScanForward(tokens, j + 1)
  }

  /** The answer of nextRealToken(tokens, i). */
  function NextReal(tokens: seq<Token>, i: int): Lookup
  {
    if i + 1 >= |tokens| || i + 1 < 0 then NotFound else ScanForward(tokens, i + 1)
  }

  /** Where a backward scan that starts at index j stops. */
  function ScanBackward(tokens: seq<Token>, j: int): Lookup
    requires j < |tokens|
    decreases j + 1
  {
    if j < 0 then NotFound
    else if !tokens[j].IsHidden() then Real(j)
    else ScanBackward(tokens, j - 1)
  }

  /** The answer of previousRealToken(tokens, i). */
  function PreviousReal(tokens: seq<Token>, i: int): Lookup
  {
    if i - 1 >= |tokens| || i - 1 < 0 then NotFound else ScanBackward(tokens, i - 1)
  }

  lemma {:induction false} ScanForwardStops(tokens: seq<Token>, j: nat)
    ensures var r := ScanForward(tokens, j);
      && (r.Real? ==> j <= r.index < |tokens| && !tokens[r.index].IsHidden() && AllSkipped(tokens, j, r.index))
      && (r.SyntheticEof? ==> exists k :: j <= k < |tokens| && tokens[k].IsHidden() && tokens[k].ttype == EOF && AllSkipped(tokens, j, k))
      && (r.NotFound? <==> AllSkipped(tokens, j, |tokens|))
    decreases |tokens| - j
  {
    if j < |tokens| && Skipped(tokens[j]) {
      ScanForwardStops(tokens, j + 1);
      var r := ScanForward(tokens, j + 1);
      if r.SyntheticEof? {
        var k :| j + 1 <= k < |tokens| && tokens[k].IsHidden() && tokens[k].ttype == EOF && AllSkipped(tokens, j + 1, k);
        assert AllSkipped(tokens, j, k);
      }
    } else if j < |tokens| && tokens[j].IsHidden() {
      assert !AllSkipped(tokens, j, |tokens|) by { assert !Skipped(tokens[j]); }
      assert AllSkipped(tokens, j, j);
    } else if j < |tokens| {
      assert !Skipped(tokens[j]);
    }
  }

  /**
   nextRealToken: no token when i + 1 is outside the stream or only skipped
   tokens follow; otherwise the first non-hidden token after i, every token
   stepped over being hidden; a fresh EOF token when a hidden EOF comes first.
   */
  lemma NextRealMeaning(tokens: seq<Token>, i: int)
    ensures var r := NextReal(tokens, i);
      && (r.NotFound? <==> i + 1 < 0 || i + 1 >= |tokens| || AllSkipped(tokens, i + 1, |tokens|))
      && (r.Real? ==> i < r.index < |tokens| && !tokens[r.index].IsHidden() && AllSkipped(tokens, i + 1, r.index))
      && (r.SyntheticEof? ==> exists k :: i < k < |tokens| && tokens[k].IsHidden() && tokens[k].ttype == EOF && AllSkipped(tokens, i + 1, k))
  {
    if 0 <= i + 1 < |tokens| {
      ScanForwardStops(tokens, i + 1);
    }
  }

  lemma {:induction false} ScanBackwardStops(tokens: seq<Token>, j: int)
    requires j < |tokens|
    ensures var r := ScanBackward(tokens, j);
      && !r.SyntheticEof?
      && (r.Real? ==> r.index <= j && !tokens[r.index].IsHidden() && AllHidden(tokens, r.index + 1, j + 1))
      && (r.NotFound? <==> AllHidden(tokens, 0, j + 1))
    decreases j + 1
  {
    if j >= 0 && tokens[j].IsHidden() {
      ScanBackwardStops(tokens, j - 1);
    } else if j >= 0 {
      assert !AllHidden(tokens, 0, j + 1) by { assert !tokens[j].IsHidden(); }
    }
  }

  /**
   previousRealToken: no token when i - 1 is outside the stream or every
   earlier token is hidden; otherwise the last non-hidden token before i.
   It never makes up an EOF token.
   */
  lemma PreviousRealMeaning(tokens: seq<Token>, i: int)
    ensures var r := PreviousReal(tokens, i);
      && !r.SyntheticEof?
      && (r.NotFound? <==> i - 1 < 0 || i - 1 >= |tokens| || AllHidden(tokens, 0, i))
      && (r.Real? ==> r.index < i && !tokens[r.index].IsHidden() && AllHidden(tokens, r.index + 1, i))
  {
    if 0 <= i - 1 < |tokens| {
      ScanBackwardStops(tokens, i - 1);
    }
  }

  /** Stepping forward from a real token and then back returns to it. */
  lemma NextThenPrevious(tokens: seq<Token>, i: nat, j: nat)
    requires i < |tokens| && !tokens[i].IsHidden()
    requires NextReal(tokens, i) == Real(j)
    ensures PreviousReal(tokens, j) == Real(i)
  {
    NextRealMeaning(tokens, i);
    PreviousRealMeaning(tokens, j);
    assert !AllHidden(tokens, 0, j);
  }

  /**
   Stepping back from a real token and then forward returns to it, unless a
   hidden EOF lies in between, where the forward scan makes up an EOF token.
   */
  lemma PreviousThenNext(tokens: seq<Token>, i: nat, j: nat)
    requires j < |tokens| && !tokens[j].IsHidden()
    requires PreviousReal(tokens, j) == Real(i)
    ensures NextReal(tokens, i) ==
      if exists k :: i < k < j && tokens[k].ttype == EOF then SyntheticEof else Real(j)
  {
    PreviousRealMeaning(tokens, j);
    NextRealMeaning(tokens, i);
    assert !AllSkipped(tokens, i + 1, |tokens|) by { assert !Skipped(tokens[j]); }
  }

  /** ParsingUtils.nextRealToken, scanning forward over hidden tokens. */
  method NextRealToken(tokens: seq<Token>, i: int) returns (r: Lookup)
    ensures r == NextReal(tokens, i)
  {
    var n := |tokens|;
    var j := i + 1;
    if j >= n || j < 0 {
      return NotFound;
    }
    var t := tokens[j];
    while t.IsHidden()
      invariant 0 <= j < n && t == tokens[j]
      invariant ScanForward(tokens, j) == NextReal(tokens, i)
      decreases n - j
    {
      if t.ttype == EOF {
        return SyntheticEof;
      }
      j := j + 1;
      if j >= n {
        return NotFound;
      }
      t := tokens[j];
    }
    return Real(j);
  }

  /** ParsingUtils.previousRealToken, scanning backward over hidden tokens. */
  method PreviousRealToken(tokens: seq<Token>, i: int) returns (r: Lookup)
    ensures r == PreviousReal(tokens, i)
  {
    var size := |tokens|;
    var j := i - 1;
    if j >= size || j < 0 {
      return NotFound;
    }
    var t := tokens[j];
    while t.IsHidden()
      invariant 0 <= j < size && t == tokens[j]
      invariant ScanBackward(tokens, j) == PreviousReal(tokens, i)
      decreases j
    {
      j := j - 1;
      if j < 0 {
        return NotFound;
      }
      t := tokens[j];
    }
    return Real(j);
  }

  /**
   ParsingUtils.getTokenUnderCursor: the index of the first token, in stream
   order, whose span contains the offset; none exactly when no token does.
   */
  method GetTokenUnderCursor(tokens: seq<Token>, offset: int) returns (r: Option<nat>)
    ensures r.Some? ==> r.value < |tokens| && tokens[r.value].Covers(offset)
    ensures r.Some? ==> forall k :: 0 <= k < r.value ==> !tokens[k].Covers(offset)
    ensures r.None? <==> forall k :: 0 <= k < |tokens| ==> !tokens[k].Covers(offset)
  {
    r := None;
    for k := 0 to |tokens|
      invariant r.None?
      invariant forall j :: 0 <= j < k ==> !tokens[j].Covers(offset)
    {
      var begin := tokens[k].startIndex;
      var end := tokens[k].stopIndex + 1;
      if offset >= begin && offset < end {
        r := Some(k);
        return;
      }
    }
  }

  /** Token spans are strictly increasing and do not overlap. */
  ghost predicate Ordered(tokens: seq<Token>) {
    forall j, k :: 0 <= j < k < |tokens| ==> tokens[j].stopIndex < tokens[k].startIndex
  }

  /** In an ordered stream at most one token lies under the cursor, so the
      first covering token is the only one. */
  lemma CoveringTokenIsUnique(tokens: seq<Token>, offset: int, j: nat, k: nat)
    requires Ordered(tokens)
    requires j < |tokens| && k < |tokens|
    requires tokens[j].Covers(offset) && tokens[k].Covers(offset)
    ensures j == k
  {
  }
}
