/**
 The guard chain of ParsingUtils.parseText: the checks that decide whether a
 preview parse of the input text is attempted, and the wiring of one syntax
 error listener into both interpreters when it is. The lexer and parser
 interpreters, the rule table of the parser grammar and the parse itself
 belong to the ANTLR runtime and come in as values.
 */
module Parsing {
  import opened Wrappers
  import opened GrammarLoading

  /** The error listeners a recognizer may carry: the console listener every
      new recognizer starts with, and the collector of syntax errors. */
  datatype ErrorListener = ConsoleErrorListener | SyntaxErrorListener

  /** A lexer or parser interpreter built from a grammar, with its error listeners in order. */
  datatype Recognizer = Recognizer(grammar: Grammar, listeners: seq<ErrorListener>)

  /** A freshly built interpreter, which reports to the console. */
  function NewRecognizer(g: Grammar): Recognizer {
    Recognizer(g, [ConsoleErrorListener])
  }

  function RemoveErrorListeners(r: Recognizer): Recognizer {
    r.(listeners := [])
  }

  function AddErrorListener(r: Recognizer, l: ErrorListener): Recognizer {
    r.(listeners := r.listeners + [l])
  }

  /** The triple parseText returns: the parser, the parse tree and the
      listener; the lexer is the one feeding the parser's token stream. */
  datatype ParseOutcome<T> = ParseOutcome(parser: Recognizer, lexer: Recognizer, tree: T, listener: ErrorListener)

  /** Which guard stopped parseText, or the outcome of a parse. Every case
      but Parsed is a null result in the source. */
  datatype ParseAttempt<T> =
    | GrammarFileMissing
    | BadGrammar
    | NoSuchStartRule
    | NoTree
    | Parsed(outcome: ParseOutcome<T>)
  {
    /** The Java result: the triple, or null. */
    function AsTriple(): Option<(Recognizer, T, ErrorListener)> {
      if Parsed? then Some((outcome.parser, outcome.tree, outcome.listener)) else None
    }
  }

  /** The grammar pair can be interpreted: it was loaded and neither slot is bad. */
  predicate Usable(grammars: Option<GrammarPair>) {
    grammars.Some? && grammars.value.lexer.LexerGrammar? && grammars.value.parser.ParserGrammar?
  }

  /** The index of the start rule in the parser grammar's rule table, if it is there. */
  function StartRule(startRuleName: Option<string>, rules: map<string, nat>): Option<nat> {
    if startRuleName.Some? && startRuleName.value in rules then Some(rules[startRuleName.value]) else None
  }

  /**
   ParsingUtils.parseText over the preview state's grammar pair and start rule
   name. The checks run in this order: the grammar file must exist, neither
   grammar may be bad (or unset), the start rule must be in the parser
   grammar's rule table, and the parse, run from that rule's index, must give
   a tree. A successful attempt returns interpreters built from the pair
   whose only error listener is the one syntax error listener.
   */
  function ParseText<T>(
    grammarFileExists: bool,
    grammars: Option<GrammarPair>,
    startRuleName: Option<string>,
    rules: map<string, nat>,
    parse: nat -> Option<T>): (a: ParseAttempt<T>)
    ensures !grammarFileExists ==> a == GrammarFileMissing
    ensures grammarFileExists && !Usable(grammars) ==> a == BadGrammar
    ensures grammarFileExists && Usable(grammars) && StartRule(startRuleName, rules).None? ==> a == NoSuchStartRule
    ensures a.NoTree? || a.Parsed? <==> grammarFileExists && Usable(grammars) && StartRule(startRuleName, rules).Some?
    ensures a.NoTree? ==> parse(StartRule(startRuleName, rules).value).None?
    ensures a.AsTriple().Some? <==>
      && grammarFileExists && Usable(grammars) && StartRule(startRuleName, rules).Some?
      && parse(StartRule(startRuleName, rules).value).Some?
    ensures a.Parsed? ==>
      && Some(a.outcome.tree) == parse(StartRule(startRuleName, rules).value)
      && a.outcome.parser == Recognizer(grammars.value.parser.grammar, [a.outcome.listener])
      && a.outcome.lexer == Recognizer(grammars.value.lexer.grammar, [a.outcome.listener])
      && a.outcome.listener == SyntaxErrorListener
  {
    if !grammarFileExists then GrammarFileMissing
    else if !Usable(grammars) then BadGrammar
    else
      var lexEngine := NewRecognizer(grammars.value.lexer.grammar);
      var parser := NewRecognizer(grammars.value.parser.grammar);
      var listener := SyntaxErrorListener;
      var parser := AddErrorListener(RemoveErrorListeners(parser), listener);
      var lexEngine := AddErrorListener(RemoveErrorListeners(lexEngine), listener);
      var start := StartRule(startRuleName, rules);
      if start.None? then NoSuchStartRule
      else
        var t := parse(start.value);
        if t.Some? then Parsed(ParseOutcome(parser, lexEngine, t.value, listener)) else NoTree
  }

  /** A missing start rule stops parseText before any parse: the answer does
      not depend on what the parse would have given. A corollary of the
      contract of ParseText, stated across two parse functions. */
  lemma StartRuleCheckedBeforeParse<T>(
    grammarFileExists: bool,
    grammars: Option<GrammarPair>,
    startRuleName: Option<string>,
    rules: map<string, nat>,
    parse1: nat -> Option<T>,
    parse2: nat -> Option<T>)
    requires StartRule(startRuleName, rules).None?
    ensures ParseText(grammarFileExists, grammars, startRuleName, rules, parse1)
         == ParseText(grammarFileExists, grammars, startRuleName, rules, parse2)
    ensures ParseText(grammarFileExists, grammars, startRuleName, rules, parse1).AsTriple().None?
  {
  }
}
