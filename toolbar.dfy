/**
 * The markdown toolbar: a constant table of tools, each passing its syntax
 * string and placeholder to `handleInsert` when clicked.
 */
module Toolbar {
  import opened JsText
  import opened Insertion

  /** One toolbar entry (`name` is the `label` field); the icon is left out. `prefix` and `multiline` are flags that nothing reads. */
  datatype Tool = Tool(syntax: JsString, placeholder: JsString, name: JsString, prefix: bool, multiline: bool)

  const BOLD: Tool := Tool(Literal("**"), Literal("bold text"), Literal("Bold"), false, false)
  const ITALIC: Tool := Tool(Literal("*"), Literal("italic text"), Literal("Italic"), false, false)
  const HEADING1: Tool := Tool(Literal("# "), Literal("Heading 1"), Literal("H1"), true, false)
  const HEADING2: Tool := Tool(Literal("## "), Literal("Heading 2"), Literal("H2"), true, false)
  const LIST: Tool := Tool(Literal("- "), Literal("List item"), Literal("List"), true, false)
  const CODE: Tool := Tool(Literal("```\n"), Literal("code here\n```"), Literal("Code"), false, true)

  /** The toolbar, left to right. */
  const Tools: seq<Tool> := [BOLD, ITALIC, HEADING1, HEADING2, LIST, CODE]

  /** The arguments a click passes to `onInsert`: the syntax and the placeholder, nothing else. */
  function ClickArguments(tool: Tool): (args: (JsString, Option<JsString>))
    ensures args.0 == tool.syntax && args.1 == Some(tool.placeholder)
  {
    (tool.syntax, Some(tool.placeholder))
  }

  /** There are six tools and their labels (the React keys) are pairwise distinct. */
  lemma LabelsDistinct()
    ensures |Tools| == 6
    ensures forall i, j :: 0 <= i < j < |Tools| ==> Tools[i].name != Tools[j].name
  {
    // Bold, Italic, H, H, List, Code: the first unit tells all apart but H1 and H2.
    assert BOLD.name[0] == 0x42 && ITALIC.name[0] == 0x49 && HEADING1.name[0] == 0x48;
    assert HEADING2.name[0] == 0x48 && LIST.name[0] == 0x4C && CODE.name[0] == 0x43;
    assert HEADING1.name[1] != HEADING2.name[1];
  }

  /** "**" and "*" hold no newline and do not end in a space: Bold and Italic wrap the text. */
  lemma EmphasisWraps()
    ensures ShapeOf(BOLD.syntax) == Wrap && ShapeOf(ITALIC.syntax) == Wrap
  {
    ShapeOfUnits(BOLD.syntax);
    ShapeOfUnits(ITALIC.syntax);
    assert NEWLINE !in BOLD.syntax && NEWLINE !in ITALIC.syntax;
  }

  /** "# ", "## " and "- " hold no newline and end in a space: the headings and List prefix the text. */
  lemma MarkersPrefix()
    ensures ShapeOf(HEADING1.syntax) == Prefix && ShapeOf(HEADING2.syntax) == Prefix && ShapeOf(LIST.syntax) == Prefix
  {
    ShapeOfUnits(HEADING1.syntax);
    ShapeOfUnits(HEADING2.syntax);
    ShapeOfUnits(LIST.syntax);
    assert NEWLINE !in HEADING1.syntax && NEWLINE !in HEADING2.syntax && NEWLINE !in LIST.syntax;
  }

  /** "```\n" holds a newline: Code takes the block branch. */
  lemma CodeIsBlock()
    ensures ShapeOf(CODE.syntax) == Block
  {
    ShapeOfUnits(CODE.syntax);
    assert CODE.syntax[3] == NEWLINE;
  }

  /**
   * Code alone takes the block branch, and the `prefix` and `multiline` flags
   * happen to agree with the branch the syntax selects.
   */
  lemma ToolShapes()
    ensures forall i :: 0 <= i < |Tools| ==> (Tools[i].prefix <==> ShapeOf(Tools[i].syntax) == Prefix)
    ensures forall i :: 0 <= i < |Tools| ==> (Tools[i].multiline <==> ShapeOf(Tools[i].syntax) == Block)
    ensures forall i :: 0 <= i < |Tools| ==> (ShapeOf(Tools[i].syntax) == Block <==> i == 5)
  {
    EmphasisWraps();
    MarkersPrefix();
    CodeIsBlock();
  }

  /** Every placeholder is non-empty, so a click never inserts empty text. */
  lemma ClickInsertsText(i: nat, selected: JsString)
    requires i < |Tools|
    ensures InsertedText(selected, ClickArguments(Tools[i]).1) != []
    ensures selected == [] ==> InsertedText(selected, ClickArguments(Tools[i]).1) == Tools[i].placeholder
  {
  }

  /**
   * Only the Code placeholder mentions `code here`; its syntax does not, so the
   * Code tool inserts a bare "```" line and drops the selected or placeholder text.
   */
  lemma CodeToolDropsText(content: JsString, start: nat, end: nat)
    requires start <= end <= |content|
    ensures !Includes(CODE.syntax, CODE_HERE)
    ensures Insert(content, start, end, CODE.syntax, Some(CODE.placeholder)).text
      == content[..start] + Literal("```\n") + content[end..]
  {
    assert !MatchAt(CODE.syntax, CODE_HERE, 0);
    CodeIsBlock();
    BlockWithoutCodeHereDropsText(content, start, end, CODE.syntax, Some(CODE.placeholder));
  }

  /**
   * Clicking Code on an empty buffer asks for the selection [4, 17) of a
   * four-unit buffer: the selection end runs past the new buffer.
   */
  lemma CodeToolSelectionOverruns()
    ensures var e := Insert([], 0, 0, CODE.syntax, Some(CODE.placeholder));
      e.text == Literal("```\n") && e.selectionStart == 4 && e.selectionEnd == 17 && e.selectionEnd > |e.text|
  {
    CodeToolDropsText([], 0, 0);
  }

  /**
   * Clicking Bold with an empty selection inserts `**bold text**` at the caret
   * and selects exactly `bold text`.
   */
  lemma BoldOnEmptySelection(content: JsString, caret: nat)
    requires caret <= |content|
    ensures var e := Insert(content, caret, caret, BOLD.syntax, Some(BOLD.placeholder));
      && e.text == content[..caret] + Literal("**bold text**") + content[caret..]
      && e.text[e.selectionStart..e.selectionEnd] == Literal("bold text")
  {
    EmphasisWraps();
    InsertSelectsInsertedText(content, caret, caret, BOLD.syntax, Some(BOLD.placeholder));
    assert content[caret..caret] == [];
    assert Middle(BOLD.syntax, BOLD.placeholder) == BOLD.syntax + BOLD.placeholder + BOLD.syntax;
    LiteralAppend("**", "bold text");
    LiteralAppend("**bold text", "**");
  }
}
