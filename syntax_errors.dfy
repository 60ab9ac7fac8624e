/**
 Errors collected while the preview parses the input, and the lookup of the
 error under the editor cursor (ParsingUtils.getErrorUnderCursor; the same
 span rule is used to underline errors in the input editor).
 */
module SyntaxErrors {
  import opened Wrappers
  import opened Tokens

  /** A half-open range of input offsets [start, end). */
  datatype Span = Span(start: int, end: int)
  {
    predicate Contains(offset: int) {
      start <= offset < end
    }
  }

  /** What caused an error: the lexer found no viable alternative at a
      character, or the parser rejected an offending token. */
  datatype Cause =
    | LexerNoViableAlt(startIndex: int)
    | OffendingToken(token: Token)

  datatype SyntaxError = SyntaxError(cause: Cause, line: int, charPositionInLine: int, message: string)

  /**
   The input offsets an error covers: the single character where a lexer
   error starts, or exactly the offsets of the offending token.
   */
  function ErrorSpan(e: SyntaxError): (s: Span)
    ensures e.cause.LexerNoViableAlt? ==>
      forall offset :: s.Contains(offset) <==> offset == e.cause.startIndex
    ensures e.cause.OffendingToken? ==>
      forall offset :: s.Contains(offset) <==> e.cause.token.Covers(offset)
  {
    match e.cause
    case LexerNoViableAlt(start) => Span(start, start + 1)
    case OffendingToken(t) => Span(t.startIndex, t.stopIndex + 1)
  }

  /**
   ParsingUtils.getErrorUnderCursor: the index of the first error, in list
   order, whose span contains the offset; none exactly when no span does.
   */
  method GetErrorUnderCursor(errors: seq<SyntaxError>, offset: int) returns (r: Option<nat>)
    ensures r.Some? ==> r.value < |errors| && ErrorSpan(errors[r.value]).Contains(offset)
    ensures r.Some? ==> forall k :: 0 <= k < r.value ==> !ErrorSpan(errors[k]).Contains(offset)
    ensures r.None? <==> forall k :: 0 <= k < |errors| ==> !ErrorSpan(errors[k]).Contains(offset)
  {
    for k := 0 to |errors|
      invariant forall j :: 0 <= j < k ==> !ErrorSpan(errors[j]).Contains(offset)
    {
      var a, b;
      match errors[k].cause {
        case LexerNoViableAlt(start) =>
          a, b := start, start + 1;
        case OffendingToken(t) =>
          a, b := t.startIndex, t.stopIndex + 1;
      }
      if offset >= a && offset < b {
        return Some(k);
      }
    }
    return None;
  }
}
