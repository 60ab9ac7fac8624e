# ANTLR preview: parsing utilities and preview state, in Dafny

This project models the core of the ANTLR v4 IntelliJ plug-in's live preview.
The preview interprets sample input against the grammar being edited, and lets
the user jump between input tokens, errors and grammar text. The model covers
the plug-in's own logic in `ParsingUtils` and `PreviewState`:

- **Token navigation** (`tokens.dfy`, module `Tokens`). `nextRealToken` and
  `previousRealToken` are `while` loops over the token stream. Each is proved
  equal to a recursive scan function (`NextReal`, `PreviousReal`). Lemmas give
  those scans their meaning:
  - the first non-hidden token after `i`, or the last one before `i`;
  - every token skipped is hidden;
  - a forward scan that meets a hidden EOF makes up a fresh EOF token (`SyntheticEof`);
  - stepping forward and then back returns to the same token, and so does
    stepping back and then forward, unless a hidden EOF lies between.
  `getTokenUnderCursor` is a `for` loop that finds the first token whose span
  `[start, stop+1)` contains the offset. In a stream with ordered,
  non-overlapping spans, that token is the only one.
- **Error lookup** (`syntax_errors.dfy`, module `SyntaxErrors`). An error has
  a discriminant: a lexer no-viable-alternative error covers the one character
  where it starts, and any other error covers its offending token.
  `getErrorUnderCursor` returns the first error, in list order, whose span
  contains the offset.
- **Grammar loading** (`grammar_loading.dfy`, module `GrammarLoading`). The
  counterpart file name comes from `indexOf`, `substring` and concatenation.
  A lemma proves the naming convention round-trips: `XParser.g4` ↔
  `XLexer.g4`. `loadGrammars` is a function over the ANTLR tool's answers,
  given as a `ToolAnswers` value. It returns no result or a pair
  `[lexer, parser]`, in which a failed slot holds a `Bad*` case. Any pair it
  returns is coherent: both grammars come from the same load.
- **The `parseText` guard chain** (`parsing.dfy`, module `Parsing`). The checks
  run in the source's order: the grammar file exists, the grammars are not
  bad, the start rule exists, and the parse gives a tree. A successful
  attempt wires the one syntax error listener into both interpreters, in
  place of their default listeners.
- **The ATN-state → grammar-token index** (`region_index.dfy`, module
  `RegionIndex`). A loop fills a map from the terminal nodes. The keys are
  exactly the ATN states of terminal nodes, and a later node overwrites an
  earlier one.
- **`PreviewState`** (`preview_state.dfy`, module `Preview`). A class with the
  editor slot. Releasing the editor is logged in a ghost sequence. The lexer
  grammar, parser grammar and start rule change in one update, which keeps the
  pair coherent.

Notes on the code:

- `BAD_PARSER_GRAMMAR` and `BAD_LEXER_GRAMMAR` are declared but never assigned
  (`ParsingUtils.java:40-41`), so they are `null`. In the source a "bad" slot
  and a never-loaded state are therefore the same. The model keeps bad slots
  as their own datatype cases (`BadLexerGrammar`, `BadParserGrammar`) and the
  never-loaded state as `None`. `ParseText` rejects both, as the source's
  check does. Because the markers are `null`, `loadGrammars` crashes on every
  load with a failed slot; see "## Findings".
- For a split grammar, a recorded error discards only the lexer. The parser
  is then reloaded by `loadGrammar`, which never returns null. It also skips
  the null check that `loadGrammars` makes on `parseGrammar`'s result
  (`ParsingUtils.java:219-223`), so a derived parser file that does not parse
  crashes the reload (`ParsingUtils.java:298-299`); the model marks that
  parser slot as bad, and `LoadGrammarsAsWritten` counts it as a crash.
  Errors raised while reloading a parser that does parse are not looked at.
- The counterpart name is cut at the FIRST occurrence of `Parser` or `Lexer`
  in the whole path (`DeriveFileNames` states this). A directory whose name
  contains the word therefore decides the derived name.

## Model

| member | source | states |
|---|---|---|
| `Tokens.NextRealToken` | src/java/org/antlr/intellij/plugin/parsing/ParsingUtils.java:43-65 | the loop returns exactly the forward scan `NextReal(tokens, i)` |
| `Tokens.ScanForwardStops` | src/java/org/antlr/intellij/plugin/parsing/ParsingUtils.java:47-64 | the scan from `j` stops at the first non-hidden token or at a hidden EOF, with every token before it hidden and not EOF; it finds nothing exactly when all remaining tokens are skipped |
| `Tokens.NextRealMeaning` | src/java/org/antlr/intellij/plugin/parsing/ParsingUtils.java:43-64 | null exactly when `i+1` is outside `[0, size)` or only hidden non-EOF tokens follow; otherwise the first non-hidden token after `i` with every skipped token hidden, or a fresh EOF token when a hidden EOF comes first |
| `Tokens.PreviousRealToken` | src/java/org/antlr/intellij/plugin/parsing/ParsingUtils.java:67-78 | the loop returns exactly the backward scan `PreviousReal(tokens, i)` |
| `Tokens.ScanBackwardStops` | src/java/org/antlr/intellij/plugin/parsing/ParsingUtils.java:71-77 | the scan from `j` stops at the last non-hidden token at or before `j`, with every token after it hidden; it finds nothing exactly when all of `[0, j]` is hidden; it never makes up a token |
| `Tokens.PreviousRealMeaning` | src/java/org/antlr/intellij/plugin/parsing/ParsingUtils.java:67-78 | null exactly when `i-1` is outside `[0, size)` or every earlier token is hidden; otherwise the last non-hidden token before `i` |
| `Tokens.NextThenPrevious` | src/java/org/antlr/intellij/plugin/parsing/ParsingUtils.java:43-78 | from a non-hidden token, `previousRealToken(nextRealToken(i))` is `i` again |
| `Tokens.PreviousThenNext` | src/java/org/antlr/intellij/plugin/parsing/ParsingUtils.java:43-78 | from a non-hidden token `j`, `nextRealToken(previousRealToken(j))` is `j` again, or a fresh EOF when a (hidden) EOF lies between |
| `Tokens.GetTokenUnderCursor` | src/java/org/antlr/intellij/plugin/parsing/ParsingUtils.java:80-92 | the first token in stream order with `start <= offset < stop+1`; null exactly when no token's span contains the offset |
| `Tokens.CoveringTokenIsUnique` | src/java/org/antlr/intellij/plugin/parsing/ParsingUtils.java:80-92 | when token spans are increasing and disjoint, at most one token lies under the cursor |
| `SyntaxErrors.ErrorSpan` | src/java/org/antlr/intellij/plugin/parsing/ParsingUtils.java:96-106 | a lexer no-viable-alternative error covers only its start offset; any other error covers exactly the offsets of its offending token (the same rule underlines errors at `InputPanel.java:619-629`) |
| `SyntaxErrors.GetErrorUnderCursor` | src/java/org/antlr/intellij/plugin/parsing/ParsingUtils.java:94-112 | the first error in list order whose span contains the offset; null exactly when no error's span does |
| `GrammarLoading.IndexOfFrom` | src/java/org/antlr/intellij/plugin/parsing/ParsingUtils.java:233-240 | `indexOf`: the first position at or after `from` where the pattern occurs, or -1 exactly when it occurs nowhere from there |
| `GrammarLoading.DeriveFileNames` | src/java/org/antlr/intellij/plugin/parsing/ParsingUtils.java:230-250 | parser grammar: lexer name is the text before the first `Parser` + `Lexer.g4`; lexer grammar: parser name is the text before the first `Lexer` + `Parser.g4`; combined: name + `Lexer` and name + `Parser`; the counterpart name is unset exactly when the substring is absent |
| `GrammarLoading.FirstOccurrenceAfter` | src/java/org/antlr/intellij/plugin/parsing/ParsingUtils.java:233-242 | `indexOf` on `x + pat + rest` finds `pat` right after `x` when `x` does not contain it |
| `GrammarLoading.SplitNamesRoundTrip` | src/java/org/antlr/intellij/plugin/parsing/ParsingUtils.java:230-250 | `XParser.g4` names its lexer `XLexer.g4` and `XLexer.g4` names its parser `XParser.g4` |
| `GrammarLoading.LoadGrammars` | src/java/org/antlr/intellij/plugin/parsing/ParsingUtils.java:204-304 | null exactly when there is no AST or the counterpart name cannot be derived; combined: the lexer is the grammar's implicit lexer, lost only when there is none, and only the parser is lost to a recorded error; split: the lexer is lost to a recorded error or (for a parser grammar) a non-lexer counterpart file, the parser is lost exactly when (for a lexer grammar) the derived parser file does not parse, and otherwise is reloaded from the derived parser file with the lexer's vocabulary if a lexer is left; the pair is always `[lexer, parser]` and coherent (the intended behaviour, with failed slots marked; used by `Preview.ReloadGrammars`) |
| `GrammarLoading.LoadGrammarsAsWritten` | src/java/org/antlr/intellij/plugin/parsing/ParsingUtils.java:262-304 | the code as written: no grammars exactly when `LoadGrammars` gives none; a null-pointer crash exactly when a combined grammar has a recorded error or no implicit lexer, or a split grammar has a recorded error, a parser grammar's counterpart file is not a lexer grammar, or a lexer grammar's derived parser file does not parse; otherwise a coherent pair with both grammars good |
| `GrammarLoading.AsWrittenAgreesOnGoodLoads` | src/java/org/antlr/intellij/plugin/parsing/ParsingUtils.java:284-293 | the code as written returns what `LoadGrammars` returns whenever both grammars are good, and crashes exactly when `LoadGrammars` marks a slot as failed |
| `GrammarLoading.CombinedGrammarErrorCrashes` | src/java/org/antlr/intellij/plugin/parsing/ParsingUtils.java:263-292 | a combined grammar with a recorded error and an implicit lexer crashes as written, where the intended result is the implicit lexer beside a bad parser slot |
| `GrammarLoading.MissingParserFileCrashes` | src/java/org/antlr/intellij/plugin/parsing/ParsingUtils.java:281-299 | the lexer grammar `XLexer.g4` whose derived `XParser.g4` does not parse crashes as written, where the intended result keeps the lexer and marks the parser slot as bad |
| `Parsing.ParseText` | src/java/org/antlr/intellij/plugin/parsing/ParsingUtils.java:138-201 | guards in order: missing grammar file, bad or unset grammar, missing start rule, parse without tree; a non-null result exactly when every guard passes and the parse gives a tree; a result carries the tree the parse gives from the start rule's index and interpreters built from the pair whose only listener is the one syntax error listener |
| `Parsing.StartRuleCheckedBeforeParse` | src/java/org/antlr/intellij/plugin/parsing/ParsingUtils.java:191-195 | a missing start rule gives null whatever the parse would give |
| `RegionIndex.TerminalNodes` | src/java/org/antlr/intellij/plugin/parsing/ParsingUtils.java:312-316 | the nodes selected are exactly the AST's string-literal, token-reference and set nodes |
| `RegionIndex.TerminalNodesAppend` | src/java/org/antlr/intellij/plugin/parsing/ParsingUtils.java:312-316 | the selection keeps the AST's order: selecting from `xs + ys` gives the selection from `xs` followed by that from `ys` |
| `RegionIndex.TerminalNodesSingleton` | src/java/org/antlr/intellij/plugin/parsing/ParsingUtils.java:312-316 | a single node is selected exactly when it is a string literal, token reference or set |
| `RegionIndex.RegionMapKeys` | src/java/org/antlr/intellij/plugin/parsing/ParsingUtils.java:317-321 | a state is a key exactly when some visited node carried it |
| `RegionIndex.RegionMapLastWins` | src/java/org/antlr/intellij/plugin/parsing/ParsingUtils.java:317-321 | a state maps to the token of the last node carrying it |
| `RegionIndex.RegionIndexMeaning` | src/java/org/antlr/intellij/plugin/parsing/ParsingUtils.java:306-330 | the keys are exactly the ATN states of terminal nodes; each maps to the token of the LAST terminal node, in AST order, that carries the state |
| `RegionIndex.GetStateToGrammarRegionMap` | src/java/org/antlr/intellij/plugin/parsing/ParsingUtils.java:306-330 | empty map for a null AST; otherwise the map of one `put` per terminal node with a state, in order; stateless nodes add nothing and are reported exactly when their parent is not a set |
| `Preview.PreviewState.constructor` | src/java/org/antlr/intellij/plugin/preview/PreviewState.java:43-45 | stores the grammar file name; grammars, start rule, parser and editor start unset, nothing released |
| `Preview.PreviewState.GetEditor` | src/java/org/antlr/intellij/plugin/preview/PreviewState.java:47-49 | returns the held editor |
| `Preview.PreviewState.ReleaseEditor` | src/java/org/antlr/intellij/plugin/preview/PreviewState.java:56-64 | the held editor, if any, is released once and the slot is empty afterwards; an empty slot releases nothing |
| `Preview.PreviewState.SetEditor` | src/java/org/antlr/intellij/plugin/preview/PreviewState.java:51-54 | the previous editor, if any, is released exactly once, and then `getEditor` gives the new one |
| `Preview.PreviewState.SetGrammars` | src/java/org/antlr/intellij/plugin/preview/PreviewState.java:19-29 | grammar pair and start rule change together, and the held pair stays coherent |
| `Preview.ReleaseTwice` | src/java/org/antlr/intellij/plugin/preview/PreviewState.java:56-64 | a second release releases nothing: two releases log the held editor once |
| `Preview.ReloadGrammars` | src/java/org/antlr/intellij/plugin/preview/PreviewState.java:19-29 | storing what `loadGrammars` returns as one unit keeps the state valid |

## Left out

- The ANTLR tool and runtime (`parseGrammar`, `createGrammar`, `process`, `Grammar.load`, `importVocab`, `getImplicitLexer`, `getRule`, `LexerInterpreter`, `MyParser.parse`, `getNodesWithType`): their code is not part of this model. Their answers are inputs: `ToolAnswers`, the rule table and the parse function of `ParseText`, and the AST's nodes in traversal order for the region index.
- `tokenizeANTLRGrammar` and `parseANTLRGrammar`: thin wrappers over the generated grammar lexer and parser, which are not part of this model.
- `Tokens.NextRealToken`: the three ways the source makes the fresh EOF token (no token source, no token factory, the factory) are one case, `SyntheticEof`, since all three give an EOF-typed token with text "EOF".
- Token lookups return the index of the stream element rather than the token object.
- `SyntaxErrors.GetErrorUnderCursor`: a non-lexer error without an offending token cannot be expressed; the source would throw a null-pointer exception there.
- `GrammarLoading.LoadGrammars`: when the lexer slot is bad in the split case, the source passes a null lexer to `importVocab`; the intended model records the parser as having no vocabulary source, and `LoadGrammarsAsWritten` counts such a load as a crash.
- `GrammarLoading.LoadGrammars`: a failure of `Grammar.load` (`ParsingUtils.java:272`) other than the `ClassCastException` the source catches (a missing or unreadable lexer file, say) propagates out of `loadGrammars`; the tool's answers cannot express it, so neither `LoadGrammars` nor `LoadGrammarsAsWritten` has an outcome for it. A derived parser file that does not parse is an answer (`parserFileParses`) and is modelled.
- `GrammarLoading.LoadGrammars`: which tool listener sees which errors is folded into the single `errorRecorded` answer.
- File existence is a boolean input of `ParseText`; logging is dropped, except the region index's reports of nodes without an ATN state, returned as a list.
- The `synchronized` modifiers of `PreviewState` and all concurrency: the model is single-threaded.
- `PreviewState.syntaxErrorListener` and `PreviewState.stateToGrammarRegionMap`: assigned only by callers outside this model.
- `EditorFactory.releaseEditor`: modelled as appending the editor to the ghost sequence `released`.
- `InputPanel`: Swing and IDE code (editors, highlighters, hints, caret, scrolling); its only pure logic is the error-span rule covered by `ErrorSpan`.

## Findings

| source | as written | input that shows it | evidently intended | confidence | as-written member | corrected member |
|---|---|---|---|---|---|---|
| src/java/org/antlr/intellij/plugin/parsing/ParsingUtils.java:40-41, 284-292 | the `BAD_*` markers are never assigned, so a failed slot holds `null` and the log line at 292 calls `getRecognizerName()` on it | a combined grammar whose analysis records an error while its implicit lexer exists: `ToolAnswers(true, CombinedKind, true, true, true)` | return `[lexer, parser]` with the failed slot marked as bad, which `parseText` then rejects | high that the crash follows from the lines shown, if nothing outside them assigns the markers; not executed | `GrammarLoading.LoadGrammarsAsWritten`, `GrammarLoading.CombinedGrammarErrorCrashes` | `GrammarLoading.LoadGrammars` |
| src/java/org/antlr/intellij/plugin/parsing/ParsingUtils.java:297-299 | `loadGrammar` hands `parseGrammar`'s result to `createGrammar` without the null check `loadGrammars` makes at 219-223, so a derived parser file that is missing or does not parse crashes the reload | the lexer grammar `XLexer.g4` with `ToolAnswers(true, LexerKind, false, false, false, false)` | mark the parser slot as bad and keep the lexer, as for any other failed load | medium: depends on `createGrammar` dereferencing a null AST, which is library code; not executed | `GrammarLoading.LoadGrammarsAsWritten`, `GrammarLoading.MissingParserFileCrashes` | `GrammarLoading.LoadGrammars` |
