/**
 * Selection-aware markdown insertion (`handleInsert`): the new buffer is built
 * from the content, the selection and a syntax string, and the textarea's
 * selection is then moved onto the inserted text.
 */
module Insertion {
  import opened JsText

  /** The three branches of `handleInsert`, chosen by the shape of the syntax string. */
  datatype Shape = Block | Prefix | Wrap

  /** The text a block syntax is expected to carry; `syntax.replace` substitutes the inserted text for it. */
  const CODE_HERE: JsString := Literal("code here")

  /**
   * The branch `handleInsert` takes: a newline anywhere in the syntax selects the
   * block branch, else a trailing space the prefix branch, else the wrap branch.
   * The units are read once, left to right; `ShapeOfMeaning` shows this is the
   * `syntax.includes("\n")` test followed by the `syntax.endsWith(" ")` test.
   */
  function ShapeOf(syntax: JsString): Shape
  {
    ShapeFrom(syntax, 0)
  }

  /** The shape, given that `syntax[..i]` holds no newline. */
  function ShapeFrom(syntax: JsString, i: nat): Shape
    requires i <= |syntax|
    decreases |syntax| - i
  {
    if i == |syntax| then (if i > 0 && syntax[i - 1] == SPACE then Prefix else Wrap)
    else if syntax[i] == NEWLINE then Block
    else ShapeFrom(syntax, i + 1)
  }

  lemma {:induction false} ShapeFromUnits(syntax: JsString, i: nat)
    requires i <= |syntax|
    ensures ShapeFrom(syntax, i) == Block <==> NEWLINE in syntax[i..]
    ensures ShapeFrom(syntax, i) == Prefix <==> NEWLINE !in syntax[i..] && |syntax| > 0 && syntax[|syntax| - 1] == SPACE
    decreases |syntax| - i
  {
    if i < |syntax| {
      ShapeFromUnits(syntax, i + 1);
      assert syntax[i..] == [syntax[i]] + syntax[i + 1..];
    }
  }

  /** The shape read off the code units: a newline anywhere, else a trailing space. */
  lemma ShapeOfUnits(syntax: JsString)
    ensures ShapeOf(syntax) == Block <==> NEWLINE in syntax
    ensures ShapeOf(syntax) == Prefix <==> NEWLINE !in syntax && |syntax| > 0 && syntax[|syntax| - 1] == SPACE
  {
    ShapeFromUnits(syntax, 0);
    assert syntax[0..] == syntax;
  }

  /** The two string tests of `handleInsert`, in their order. */
  lemma ShapeOfMeaning(syntax: JsString)
    ensures ShapeOf(syntax) == Block <==> Includes(syntax, [NEWLINE])
    ensures ShapeOf(syntax) == Prefix <==> !Includes(syntax, [NEWLINE]) && EndsWith(syntax, [SPACE])
  {
    ShapeOfUnits(syntax);
    IncludesUnit(syntax, NEWLINE);
    if |syntax| > 0 {
      assert EndsWith(syntax, [SPACE]) <==> syntax[|syntax| - 1..] == [SPACE];
    }
  }

  /** `selectedText || placeholder || ""`. */
  function InsertedText(selected: JsString, placeholder: Option<JsString>): (text: JsString)
    ensures selected != [] ==> text == selected
    ensures selected == [] && placeholder.Some? ==> text == placeholder.value
    ensures selected == [] && placeholder.None? ==> text == []
  {
    if selected != [] then selected
    else if placeholder.Some? && placeholder.value != [] then placeholder.value
    else []
  }

  /** The new buffer and the selection `handleInsert` asks for (lines 82-83). */
  datatype Edit = Edit(text: JsString, selectionStart: nat, selectionEnd: nat)

  /**
   * What replaces the selection. In the prefix and wrap branches it starts with
   * the syntax followed by the text, and the wrap branch closes with the syntax
   * again; in the block branch the text takes the place of the first `code here`
   * of the syntax, and a syntax without `code here` is used as it is.
   */
  function Middle(syntax: JsString, text: JsString): JsString
  {
    match ShapeOf(syntax)
    case Block => ReplaceFirst(syntax, CODE_HERE, text)
    case Prefix => syntax + text
    case Wrap => syntax + text + syntax
  }

  /**
   * The prefix and wrap branches: the syntax, then the text, and in the wrap
   * branch the syntax once more, with nothing else.
   */
  lemma InlineMiddle(syntax: JsString, text: JsString)
    requires ShapeOf(syntax) != Block
    ensures var middle := Middle(syntax, text);
      && |middle| >= |syntax| + |text|
      && middle[..|syntax|] == syntax
      && middle[|syntax|..|syntax| + |text|] == text
      && (ShapeOf(syntax) == Prefix ==> |middle| == |syntax| + |text|)
      && (ShapeOf(syntax) == Wrap ==> |middle| == 2 * |syntax| + |text| && middle[|syntax| + |text|..] == syntax)
  {
    if ShapeOf(syntax) == Prefix {
      SlicesOfConcat(syntax, text, []);
      assert syntax + text + [] == syntax + text;
    } else {
      SlicesOfConcat(syntax, text, syntax);
    }
  }

  /**
   * The block branch: the text takes the place of the first `code here` of the
   * syntax (a text without `$` patterns goes in verbatim), and a syntax without
   * `code here` is used as it is.
   */
  lemma BlockMiddle(syntax: JsString, text: JsString)
    requires ShapeOf(syntax) == Block
    ensures !Includes(syntax, CODE_HERE) ==> Middle(syntax, text) == syntax
    ensures Includes(syntax, CODE_HERE) && DOLLAR !in text ==>
      var i := IndexOf(syntax, CODE_HERE).value;
      Middle(syntax, text) == syntax[..i] + text + syntax[i + |CODE_HERE|..]
  {
  }

  /** The buffer built by `handleInsert` for the selection `[start, end)`. */
  function Insert(content: JsString, start: nat, end: nat, syntax: JsString, placeholder: Option<JsString>): (e: Edit)
    requires start <= end <= |content|
    ensures e.text == content[..start] + Middle(syntax, InsertedText(content[start..end], placeholder)) + content[end..]
    ensures |e.text| >= start + (|content| - end)
    ensures e.text[..start] == content[..start]
    ensures e.text[|e.text| - (|content| - end)..] == content[end..]
    ensures e.selectionStart == start + |syntax|
    ensures e.selectionEnd == e.selectionStart + |InsertedText(content[start..end], placeholder)|
  {
    var text := InsertedText(content[start..end], placeholder);
    var built := content[..start] + Middle(syntax, text) + content[end..];
    SlicesOfConcat(content[..start], Middle(syntax, text), content[end..]);
    Edit(built, start + |syntax|, start + |syntax| + |text|)
  }

  /** The middle of the built buffer sits at the start of the selection, in place of it. */
  lemma MiddleInPlace(content: JsString, start: nat, end: nat, syntax: JsString, placeholder: Option<JsString>)
    requires start <= end <= |content|
    ensures var e := Insert(content, start, end, syntax, placeholder);
      var middle := Middle(syntax, InsertedText(content[start..end], placeholder));
      && |e.text| == |content| - (end - start) + |middle|
      && e.text[start..start + |middle|] == middle
  {
    var middle := Middle(syntax, InsertedText(content[start..end], placeholder));
    SlicesOfConcat(content[..start], middle, content[end..]);
  }

  /** The prefix branch: the syntax, then the selection on exactly the inserted text. */
  lemma PrefixSelects(content: JsString, start: nat, end: nat, syntax: JsString, placeholder: Option<JsString>)
    requires start <= end <= |content|
    requires ShapeOf(syntax) == Prefix
    ensures var e := Insert(content, start, end, syntax, placeholder);
      var text := InsertedText(content[start..end], placeholder);
      && e.selectionEnd <= |e.text|
      && e.text[start..e.selectionStart] == syntax
      && e.text[e.selectionStart..e.selectionEnd] == text
  {
    var text := InsertedText(content[start..end], placeholder);
    var e := Insert(content, start, end, syntax, placeholder);
    var middle := syntax + text;
    assert Middle(syntax, text) == middle;
    MiddleInPlace(content, start, end, syntax, placeholder);
    SlicesOfConcat(syntax, text, []);
    SliceOfSlice(e.text, start, start + |middle|, 0, |syntax|);
    SliceOfSlice(e.text, start, start + |middle|, |syntax|, |middle|);
  }

  /** The wrap branch: the syntax, then the selection on exactly the inserted text. */
  lemma WrapSelects(content: JsString, start: nat, end: nat, syntax: JsString, placeholder: Option<JsString>)
    requires start <= end <= |content|
    requires ShapeOf(syntax) == Wrap
    ensures var e := Insert(content, start, end, syntax, placeholder);
      var text := InsertedText(content[start..end], placeholder);
      && e.selectionEnd + |syntax| <= |e.text|
      && e.text[start..e.selectionStart] == syntax
      && e.text[e.selectionStart..e.selectionEnd] == text
  {
    var text := InsertedText(content[start..end], placeholder);
    var e := Insert(content, start, end, syntax, placeholder);
    var middle := syntax + text + syntax;
    assert Middle(syntax, text) == middle;
    MiddleInPlace(content, start, end, syntax, placeholder);
    SlicesOfConcat(syntax, text, syntax);
    SliceOfSlice(e.text, start, start + |middle|, 0, |syntax|);
    SliceOfSlice(e.text, start, start + |middle|, |syntax|, |syntax| + |text|);
  }

  /** The wrap branch closes the selection with a second copy of the syntax. */
  lemma WrapClosesSelection(content: JsString, start: nat, end: nat, syntax: JsString, placeholder: Option<JsString>)
    requires start <= end <= |content|
    requires ShapeOf(syntax) == Wrap
    ensures var e := Insert(content, start, end, syntax, placeholder);
      e.selectionEnd + |syntax| <= |e.text| && e.text[e.selectionEnd..e.selectionEnd + |syntax|] == syntax
  {
    var text := InsertedText(content[start..end], placeholder);
    var e := Insert(content, start, end, syntax, placeholder);
    var middle := syntax + text + syntax;
    assert Middle(syntax, text) == middle;
    MiddleInPlace(content, start, end, syntax, placeholder);
    SliceOfSlice(e.text, start, start + |middle|, |syntax| + |text|, |middle|);
  }

  /**
   * In the prefix and wrap branches the requested selection lies inside the new
   * buffer and covers exactly the inserted text.
   */
  lemma InsertSelectsInsertedText(content: JsString, start: nat, end: nat, syntax: JsString, placeholder: Option<JsString>)
    requires start <= end <= |content|
    requires ShapeOf(syntax) != Block
    ensures var e := Insert(content, start, end, syntax, placeholder);
      && e.selectionStart <= e.selectionEnd <= |e.text|
      && e.text[e.selectionStart..e.selectionEnd] == InsertedText(content[start..end], placeholder)
  {
    if ShapeOf(syntax) == Wrap {
      WrapSelects(content, start, end, syntax, placeholder);
    } else {
      PrefixSelects(content, start, end, syntax, placeholder);
    }
  }

  /**
   * A block syntax without `code here` is inserted verbatim: the selected or
   * placeholder text is dropped, and the requested selection end runs past the
   * new buffer exactly when that text is longer than the content after the selection.
   */
  lemma BlockWithoutCodeHereDropsText(content: JsString, start: nat, end: nat, syntax: JsString, placeholder: Option<JsString>)
    requires start <= end <= |content|
    requires ShapeOf(syntax) == Block && !Includes(syntax, CODE_HERE)
    ensures var e := Insert(content, start, end, syntax, placeholder);
      && e.text == content[..start] + syntax + content[end..]
      && (e.selectionEnd > |e.text| <==> |InsertedText(content[start..end], placeholder)| > |content| - end)
  {
  }

  function Min(a: nat, b: nat): nat
  {
    if a <= b then a else b
  }

  /**
   * "Set the selection range" of the HTML standard for a text control of length
   * `len`: offsets past the end point at the end, and a range whose end is not
   * after its start collapses to its end.
   */
  function ClampRange(len: nat, start: nat, end: nat): (r: (nat, nat))
    ensures r.0 <= r.1 <= len
    ensures start <= end <= len ==> r == (start, end)
    ensures end >= len ==> r.1 == len
  {
    var s, e := Min(start, len), Min(end, len);
    if e <= s then (e, e) else (s, e)
  }

  /** The DOM textarea: its value and its selection offsets, updated in place. */
  class Textarea {
    var value: JsString
    var selectionStart: nat
    var selectionEnd: nat

    ghost predicate Valid()
      reads this
    {
      selectionStart <= selectionEnd <= |value|
    }

    /** A textarea showing `text`; setting the value leaves the caret at its end. */
    constructor Showing(text: JsString)
      ensures Valid() && value == text
      ensures selectionStart == selectionEnd == |text|
    {
      value := text;
      selectionStart, selectionEnd := |text|, |text|;
    }

    /** The `value` setter: a changed value moves the caret to the end. */
    method SetValue(v: JsString)
      requires Valid()
      modifies this
      ensures Valid() && value == v
      ensures v != old(value) ==> selectionStart == selectionEnd == |v|
      ensures v == old(value) ==> selectionStart == old(selectionStart) && selectionEnd == old(selectionEnd)
    {
      if v != value {
        value := v;
        selectionStart, selectionEnd := |v|, |v|;
      }
    }

    /** `setSelectionRange(start, end)`, also used by the user selecting text. */
    method SetRange(start: nat, end: nat)
      modifies this
      ensures value == old(value) && Valid()
      ensures (selectionStart, selectionEnd) == ClampRange(|value|, start, end)
    {
      var r := ClampRange(|value|, start, end);
      selectionStart, selectionEnd := r.0, r.1;
    }

    /** The `selectionStart` setter: the end moves up to the new start if it was before it. */
    method SetSelectionStart(v: nat)
      modifies this
      ensures value == old(value) && Valid()
      ensures (selectionStart, selectionEnd) == ClampRange(|value|, v, if old(selectionEnd) < v then v else old(selectionEnd))
    {
      var end := if selectionEnd < v then v else selectionEnd;
      SetRange(v, end);
    }

    /** The `selectionEnd` setter. */
    method SetSelectionEnd(v: nat)
      modifies this
      ensures value == old(value) && Valid()
      ensures (selectionStart, selectionEnd) == ClampRange(|value|, old(selectionStart), v)
    {
      SetRange(selectionStart, v);
    }
  }

  /**
   * Setting `selectionStart := p` and then `selectionEnd := q` on a valid
   * selection of a buffer of length `len` gives the range `[p, q)` clamped to the buffer.
   */
  lemma SelectionAfterSetters(len: nat, oldEnd: nat, p: nat, q: nat)
    requires oldEnd <= len && p <= q
    ensures var first := ClampRange(len, p, if oldEnd < p then p else oldEnd);
      ClampRange(len, first.0, q) == (Min(p, len), Min(q, len))
  {
  }
}
