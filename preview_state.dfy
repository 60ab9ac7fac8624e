/**
 The per-grammar state of the preview window (PreviewState): the grammar
 file it belongs to, the lexer and parser grammars with the start rule, the
 last parser, and the input editor currently shown for the grammar.
 */
module Preview {
  import opened Wrappers
  import opened GrammarLoading
  import opened Parsing

  /** An input editor of the IDE; only its identity matters here. */
  class Editor {
    constructor () {}
  }

  class PreviewState {
    var grammarFileName: string
    /** The lexer grammar lg and parser grammar g, as one pair; None until first loaded. */
    var grammars: Option<GrammarPair>
    var startRuleName: Option<string>
    var parser: Option<Recognizer>
    /** The current input editor for this grammar, if any. */
    var editor: Editor?
    /** The editors handed to the IDE's editor factory for release, in order. */
    ghost var released: seq<Editor>

    /** The grammars held never come from two different loads. */
    ghost predicate Valid()
      reads this
    {
      grammars.Some? ==> Coherent(grammars.value)
    }

    /** A new state knows only its grammar file name. */
    constructor (grammarFileName: string)
      ensures Valid()
      ensures this.grammarFileName == grammarFileName
      ensures grammars == None && startRuleName == None && parser == None
      ensures editor == null && released == []
    {
      this.grammarFileName := grammarFileName;
      grammars := None;
      startRuleName := None;
      parser := None;
      editor := null;
      released := [];
    }

    method GetEditor() returns (e: Editor?)
      ensures e == editor
    {
      e := editor;
    }

    /** Releases the held editor, if any, and empties the slot. */
    method ReleaseEditor()
      modifies this`editor, this`released
      ensures editor == null
      ensures released == old(released) + (if old(editor) != null then [old(editor)] else [])
    {
      if editor != null {
        released := released + [editor];
        editor := null;
      }
    }

    /** Releases the previously held editor exactly once, then holds e. */
    method SetEditor(e: Editor?)
      modifies this`editor, this`released
      ensures editor == e
      ensures released == old(released) + (if old(editor) != null then [old(editor)] else [])
    {
      ReleaseEditor();
      editor := e;
    }

    /**
     The one update of the grammar pair and start rule together, so that the
     lexer and parser grammars always come from the same load.
     */
    method SetGrammars(pair: Option<GrammarPair>, startRuleName: Option<string>)
      requires Valid()
      requires pair.Some? ==> Coherent(pair.value)
      modifies this`grammars, this`startRuleName
      ensures Valid()
      ensures grammars == pair && this.startRuleName == startRuleName
    {
      grammars := pair;
      this.startRuleName := startRuleName;
    }
  }

  /** Releasing twice releases the held editor once: the second call finds
      the slot empty and does nothing. */
  method ReleaseTwice(s: PreviewState)
    modifies s`editor, s`released
    ensures s.editor == null
    ensures s.released == old(s.released) + (if old(s.editor) != null then [old(s.editor)] else [])
  {
    s.ReleaseEditor();
    ghost var afterFirst := s.released;
    s.ReleaseEditor();
    assert s.released == afterFirst;
  }

  /** Storing the result of loadGrammars keeps the state valid: the pair it
      returns is coherent. */
  method ReloadGrammars(s: PreviewState, fileName: string, answers: ToolAnswers, startRuleName: Option<string>)
    requires s.Valid()
    modifies s`grammars, s`startRuleName
    ensures s.Valid()
    ensures s.grammars == LoadGrammars(fileName, answers) && s.startRuleName == startRuleName
  {
    s.SetGrammars(LoadGrammars(fileName, answers), startRuleName);
  }
}
