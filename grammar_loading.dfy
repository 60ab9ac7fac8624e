/**
 Loading the lexer and parser grammars behind a grammar file
 (ParsingUtils.loadGrammars and loadGrammar): deriving the counterpart file
 name of a split grammar, and the table of outcomes over what the ANTLR tool
 answers while parsing and processing the grammars.
 */
module GrammarLoading {
  import opened Wrappers

  /** The kind of a grammar as the ANTLR tool reports it. */
  datatype GrammarKind = ParserKind | LexerKind | CombinedKind

  /** pat occurs in s starting at position k. */
  predicate OccursAt(s: string, pat: string, k: int) {
    0 <= k && k + |pat| <= |s| && s[k..k + |pat|] == pat
  }

  /** String.indexOf(pat, from): the first position at or after from where pat occurs, or -1. */
  function IndexOfFrom(s: string, pat: string, from: nat): (r: int)
    ensures r == -1 || (from <= r && OccursAt(s, pat, r))
    ensures r >= 0 ==> forall k :: from <= k < r ==> !OccursAt(s, pat, k)
    ensures r == -1 ==> forall k :: from <= k ==> !OccursAt(s, pat, k)
    decreases |s| - from
  {
    if from + |pat| > |s| then -1
    else if s[from..from + |pat|] == pat then from
    else IndexOfFrom(s, pat, from + 1)
  }

  /** String.indexOf(pat). */
  function IndexOf(s: string, pat: string): int {
    IndexOfFrom(s, pat, 0)
  }

  /** pat first occurs in s at position i. */
  ghost predicate FirstOccurrence(s: string, pat: string, i: int) {
    OccursAt(s, pat, i) && forall k :: 0 <= k < i ==> !OccursAt(s, pat, k)
  }

  /** The file names loadGrammars works with; None stands for a name left null. */
  datatype GrammarFileNames = GrammarFileNames(combined: Option<string>, lexer: Option<string>, parser: Option<string>)

  /**
   The file names derived from the opened grammar file: a parser grammar
   names its lexer after the text before the first "Parser", a lexer grammar
   names its parser after the text before the first "Lexer", and a combined
   grammar gets the names with "Lexer" and "Parser" appended. Without the
   substring, the counterpart name stays unset.
   */
  function DeriveFileNames(fileName: string, kind: GrammarKind): (names: GrammarFileNames)
    ensures kind == ParserKind ==>
      && names.combined.None? && names.parser == Some(fileName)
      && (names.lexer.None? <==> forall k :: !OccursAt(fileName, "Parser", k))
      && (names.lexer.Some? ==> exists i :: FirstOccurrence(fileName, "Parser", i) && names.lexer.value == fileName[..i] + "Lexer.g4")
    ensures kind == LexerKind ==>
      && names.combined.None? && names.lexer == Some(fileName)
      && (names.parser.None? <==> forall k :: !OccursAt(fileName, "Lexer", k))
      && (names.parser.Some? ==> exists i :: FirstOccurrence(fileName, "Lexer", i) && names.parser.value == fileName[..i] + "Parser.g4")
    ensures kind == CombinedKind ==>
      names == GrammarFileNames(Some(fileName), Some(fileName + "Lexer"), Some(fileName + "Parser"))
  {
    match kind
    case ParserKind =>
      var i := IndexOf(fileName, "Parser");
      GrammarFileNames(None, if i >= 0 then Some(fileName[..i] + "Lexer.g4") else None, Some(fileName))
    case LexerKind =>
      var i2 := IndexOf(fileName, "Lexer");
      GrammarFileNames(None, Some(fileName), if i2 >= 0 then Some(fileName[..i2] + "Parser.g4") else None)
    case CombinedKind =>
      GrammarFileNames(Some(fileName), Some(fileName + "Lexer"), Some(fileName + "Parser"))
  }

  /** When x does not contain pat and pat's first character does not recur in
      pat, the first occurrence of pat in x + pat + rest is right after x. */
  lemma {:induction false} FirstOccurrenceAfter(x: string, pat: string, rest: string)
    requires |pat| > 0
    requires forall d :: 0 < d < |pat| ==> pat[d] != pat[0]
    requires forall k :: !OccursAt(x, pat, k)
    ensures IndexOf(x + pat + rest, pat) == |x|
  {
    var s := x + pat + rest;
    assert OccursAt(s, pat, |x|) by {
      assert s[|x|..|x| + |pat|] == pat;
    }
    forall k | 0 <= k < |x|
      ensures !OccursAt(s, pat, k)
    {
      if k + |pat| <= |x| {
        assert s[k..k + |pat|] == x[k..k + |pat|];
        assert !OccursAt(x, pat, k);
      } else {
        var d := |x| - k;
        assert s[k..k + |pat|][d] == s[|x|] == pat[0];
        assert pat[d] != pat[0];
      }
    }
  }

  /**
   The naming convention of split grammars round-trips: XParser.g4 names its
   lexer XLexer.g4, and XLexer.g4 names its parser XParser.g4, when X holds
   neither "Parser" nor "Lexer".
   */
  lemma SplitNamesRoundTrip(x: string)
    requires forall k :: !OccursAt(x, "Parser", k) && !OccursAt(x, "Lexer", k)
    ensures DeriveFileNames(x + "Parser.g4", ParserKind).lexer == Some(x + "Lexer.g4")
    ensures DeriveFileNames(x + "Lexer.g4", LexerKind).parser == Some(x + "Parser.g4")
  {
    assert x + "Parser.g4" == x + "Parser" + ".g4";
    assert x + "Lexer.g4" == x + "Lexer" + ".g4";
    FirstOccurrenceAfter(x, "Parser", ".g4");
    FirstOccurrenceAfter(x, "Lexer", ".g4");
    assert (x + "Parser.g4")[..|x|] == x;
    assert (x + "Lexer.g4")[..|x|] == x;
  }

  /**
   A grammar as the plug-in holds it: either read from a file, importing the
   token vocabulary of the lexer grammar read from vocabFrom when one was
   given, or the lexer ANTLR derives from the rules of a combined grammar.
   */
  datatype Grammar =
    | FileGrammar(fileName: string, vocabFrom: Option<string>)
    | ImplicitLexer(combinedFileName: string)

  /** The lexer slot of a grammar pair; BadLexerGrammar replaces a lexer that failed. */
  datatype LexerSlot = LexerGrammar(grammar: Grammar) | BadLexerGrammar

  /** The parser slot of a grammar pair; BadParserGrammar replaces a parser that failed. */
  datatype ParserSlot = ParserGrammar(grammar: Grammar) | BadParserGrammar

  /** The two-element result of loadGrammars: lexer first, parser second. */
  datatype GrammarPair = GrammarPair(lexer: LexerSlot, parser: ParserSlot)

  /**
   When both slots hold grammars, they belong together: the lexer is the
   implicit lexer of the very combined grammar in the parser slot, or the
   parser was built with the vocabulary of the file the lexer came from.
   */
  predicate Coherent(pair: GrammarPair) {
    pair.lexer.LexerGrammar? && pair.parser.ParserGrammar? ==>
      match pair.lexer.grammar
      case ImplicitLexer(f) => pair.parser.grammar == FileGrammar(f, None)
      case FileGrammar(f, _) => pair.parser.grammar.FileGrammar? && pair.parser.grammar.vocabFrom == Some(f)
  }

  /**
   What the ANTLR tool answers while loadGrammars runs: whether parsing the
   opened file gave a root AST, the kind of grammar built from it, whether
   the tool listener holds an error message when it is consulted, whether a
   combined grammar has an implicit lexer, whether loading the derived lexer
   file gave a lexer grammar, and whether the derived parser file parsed.
   The last two answers concern the counterpart file only: for a lexer
   grammar the lexer file is the opened file itself, so lexerFileIsLexerGrammar
   is read only for a parser grammar; for a parser grammar the parser file is
   the opened file, which has parsed, so parserFileParses is read only for a
   lexer grammar.
   */
  datatype ToolAnswers = ToolAnswers(
    rootAstPresent: bool,
    kind: GrammarKind,
    errorRecorded: bool,
    implicitLexerPresent: bool,
    lexerFileIsLexerGrammar: bool,
    parserFileParses: bool)

  /** loadGrammar: the parser grammar read from fileName, importing the
      vocabulary of the lexer grammar (if there is one). */
  function LoadGrammar(fileName: string, lexer: LexerSlot): Grammar {
    FileGrammar(fileName, if lexer.LexerGrammar? && lexer.grammar.FileGrammar? then Some(lexer.grammar.fileName) else None)
  }

  /** The counterpart file name can be derived from the opened file name. */
  ghost predicate CounterpartDerivable(fileName: string, kind: GrammarKind) {
    match kind
    case ParserKind => exists k :: OccursAt(fileName, "Parser", k)
    case LexerKind => exists k :: OccursAt(fileName, "Lexer", k)
    case CombinedKind => true
  }

  /**
   ParsingUtils.loadGrammars: no result when the opened file gives no AST or
   its counterpart name cannot be derived; otherwise the pair [lexer, parser],
   where a failed slot holds its Bad* marker. A combined grammar keeps its
   implicit lexer and loses only its parser to a recorded error. A split
   grammar loses its lexer to a recorded error or to a counterpart file that
   is not a lexer grammar, and its parser to a counterpart parser file that
   does not parse; otherwise the parser is reloaded with whatever lexer
   vocabulary is left.
   */
  function LoadGrammars(fileName: string, answers: ToolAnswers): (r: Option<GrammarPair>)
    ensures r.Some? <==> answers.rootAstPresent && CounterpartDerivable(fileName, answers.kind)
    ensures r.Some? && answers.kind == CombinedKind ==>
      && (r.value.parser.BadParserGrammar? <==> answers.errorRecorded)
      && (r.value.lexer.BadLexerGrammar? <==> !answers.implicitLexerPresent)
      && (r.value.lexer.LexerGrammar? ==> r.value.lexer.grammar == ImplicitLexer(fileName))
      && (r.value.parser.ParserGrammar? ==> r.value.parser.grammar == FileGrammar(fileName, None))
    ensures r.Some? && answers.kind != CombinedKind ==>
      var names := DeriveFileNames(fileName, answers.kind);
      && names.lexer.Some? && names.parser.Some?
      && (r.value.lexer.BadLexerGrammar? <==>
            answers.errorRecorded || (answers.kind == ParserKind && !answers.lexerFileIsLexerGrammar))
      && (r.value.lexer.LexerGrammar? ==> r.value.lexer.grammar == FileGrammar(names.lexer.value, None))
      && (r.value.parser.BadParserGrammar? <==> answers.kind == LexerKind && !answers.parserFileParses)
      && (r.value.parser.ParserGrammar? ==>
            r.value.parser.grammar == FileGrammar(names.parser.value,
              if r.value.lexer.LexerGrammar? then Some(names.lexer.value) else None))
    ensures r.Some? ==> Coherent(r.value)
  {
    if !answers.rootAstPresent then None
    else
      var names := DeriveFileNames(fileName, answers.kind);
      if names.lexer.None? || names.parser.None? then None
      else if names.combined.Some? then
        var lg := if answers.implicitLexerPresent then LexerGrammar(ImplicitLexer(fileName)) else BadLexerGrammar;
        var g := if answers.errorRecorded then BadParserGrammar else ParserGrammar(FileGrammar(fileName, None));
        Some(GrammarPair(lg, g))
      else
        var lexerLoaded := answers.kind == LexerKind || answers.lexerFileIsLexerGrammar;
        var lg :=
          if lexerLoaded && !answers.errorRecorded
          then LexerGrammar(FileGrammar(names.lexer.value, None))
          else BadLexerGrammar;
        var parserParses := answers.kind == ParserKind || answers.parserFileParses;
        var g := if parserParses then ParserGrammar(LoadGrammar(names.parser.value, lg)) else BadParserGrammar;
        Some(GrammarPair(lg, g))
  }

  /** What the code of loadGrammars does, including the way it fails. */
  datatype LoadOutcome = NoGrammars | Loaded(pair: GrammarPair) | NullPointerCrash

  /**
   loadGrammars as written. BAD_PARSER_GRAMMAR and BAD_LEXER_GRAMMAR are
   declared but never assigned, so storing them stores null, and the log line
   that names both recognizers then dereferences null. A split grammar whose
   lexer failed crashes no later than that line, as loadGrammar also imports
   the vocabulary of that null lexer; one whose parser file does not parse
   crashes earlier, as loadGrammar hands the null AST to createGrammar. So
   every load with a failed slot crashes instead of returning the pair.
   */
  function LoadGrammarsAsWritten(fileName: string, answers: ToolAnswers): (o: LoadOutcome)
    ensures o.NoGrammars? <==> !answers.rootAstPresent || !CounterpartDerivable(fileName, answers.kind)
    ensures o.NullPointerCrash? <==>
      && answers.rootAstPresent && CounterpartDerivable(fileName, answers.kind)
      && (if answers.kind == CombinedKind
          then answers.errorRecorded || !answers.implicitLexerPresent
          else
            || answers.errorRecorded
            || (answers.kind == ParserKind && !answers.lexerFileIsLexerGrammar)
            || (answers.kind == LexerKind && !answers.parserFileParses))
    ensures o.Loaded? ==> Coherent(o.pair) && o.pair.lexer.LexerGrammar? && o.pair.parser.ParserGrammar?
  {
    var r := LoadGrammars(fileName, answers);
    if r.None? then NoGrammars
    else if r.value.lexer.BadLexerGrammar? || r.value.parser.BadParserGrammar? then NullPointerCrash
    else Loaded(r.value)
  }

  /** The two agree exactly on the loads where both grammars are good; on
      every other load the code crashes where LoadGrammars returns the pair
      with its failed slot marked. */
  lemma AsWrittenAgreesOnGoodLoads(fileName: string, answers: ToolAnswers)
    ensures var r := LoadGrammars(fileName, answers);
      match LoadGrammarsAsWritten(fileName, answers)
      case NoGrammars => r.None?
      case Loaded(pair) => r == Some(pair)
      case NullPointerCrash => r.Some? && (r.value.lexer.BadLexerGrammar? || r.value.parser.BadParserGrammar?)
  {
  }

  /** A combined grammar with an analysis error: the code crashes, while the
      intended result is the implicit lexer beside a bad parser slot. */
  lemma CombinedGrammarErrorCrashes(fileName: string)
    ensures var answers := ToolAnswers(true, CombinedKind, true, true, true, true);
      && LoadGrammarsAsWritten(fileName, answers) == NullPointerCrash
      && LoadGrammars(fileName, answers) == Some(GrammarPair(LexerGrammar(ImplicitLexer(fileName)), BadParserGrammar))
  {
  }

  /** A lexer grammar whose derived parser file does not parse: the code
      crashes in loadGrammar, while the intended result keeps the lexer and
      marks the parser slot as bad. */
  lemma MissingParserFileCrashes()
    ensures var answers := ToolAnswers(true, LexerKind, false, false, false, false);
      && LoadGrammarsAsWritten("XLexer.g4", answers) == NullPointerCrash
      && LoadGrammars("XLexer.g4", answers) == Some(GrammarPair(LexerGrammar(FileGrammar("XLexer.g4", None)), BadParserGrammar))
  {
    assert OccursAt("XLexer.g4", "Lexer", 1);
  }
}
