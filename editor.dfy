/**
 * The editor page (`Index`): its React state, the statistics effect, the
 * autosave timer, the Save and Publish handlers and `handleInsert`, as an
 * object whose methods update its fields in place.
 */
module Editor {
  import opened JsText
  import opened Stats
  import opened Insertion
  import opened Drafts

  /** `localStorage`, reduced to the `blog-draft` slot. */
  class Storage {
    var draft: Option<StoredText>

    constructor (draft: Option<StoredText>)
      ensures this.draft == draft
    {
      this.draft := draft;
    }
  }

  class EditorPage {
    var title: JsString
    var content: JsString
    var coverImage: JsString
    var wordCount: nat
    var charCount: nat
    var readingTime: nat
    /** The values captured by the armed 500 ms autosave timer, if one is armed. */
    var pending: Option<Draft>
    const storage: Storage
    /** `textareaRef.current`: null while no textarea is attached. */
    const textarea: Textarea?

    function Doc(): Draft
      reads this
    {
      Draft(title, content, coverImage)
    }

    ghost function Model(): Session
      reads this, storage
    {
      Session(Doc(), pending, storage.draft)
    }

    /** The statistics are those of the content, an armed timer holds the current values, and the textarea shows the content. */
    ghost predicate Valid()
      reads this, textarea
    {
      && wordCount == WordRuns(content)
      && charCount == CharCount(content)
      && readingTime == ReadingTime(wordCount)
      && (pending == None || pending == Some(Doc()))
      && (textarea != null ==> textarea.Valid() && textarea.value == content)
    }

    /** The page after both effects of the first render have run with the restored draft. */
    constructor Mounted(storage: Storage, restored: Draft, attached: bool)
      ensures Valid() && this.storage == storage
      ensures Model() == Session(restored, Some(restored), storage.draft)
      ensures (textarea != null <==> attached) && (textarea != null ==> fresh(textarea))
    {
      title, content, coverImage := restored.title, restored.content, restored.coverImage;
      var w, c, m := LiveStats(restored.content);
      wordCount, charCount, readingTime := w, c, m;
      pending := Some(restored);
      this.storage := storage;
      if attached {
        textarea := new Textarea.Showing(restored.content);
      } else {
        textarea := null;
      }
    }

    /**
     * A new value of the title, content or cover image: React re-renders and,
     * if something changed, the effect recomputes the statistics, cancels the
     * armed timer and arms one with the new values.
     */
    method Change(d: Draft)
      requires Valid()
      modifies this, textarea
      ensures Valid()
      ensures Model() == Step(old(Model()), Edited(d))
      ensures textarea != null && d.content == old(content) ==>
        textarea.selectionStart == old(textarea.selectionStart) && textarea.selectionEnd == old(textarea.selectionEnd)
    {
      if d == Doc() {
        return;
      }
      var words, chars, minutes := LiveStats(d.content);
      if textarea != null {
        textarea.SetValue(d.content);
      }
      title, content, coverImage := d.title, d.content, d.coverImage;
      wordCount, charCount, readingTime := words, chars, minutes;
      pending := Some(d);
    }

    method SetTitle(t: JsString)
      requires Valid()
      modifies this, textarea
      ensures Valid()
      ensures Model() == Step(old(Model()), Edited(Draft(t, old(content), old(coverImage))))
      ensures textarea != null ==>
        textarea.selectionStart == old(textarea.selectionStart) && textarea.selectionEnd == old(textarea.selectionEnd)
    {
      Change(Draft(t, content, coverImage));
    }

    method SetContent(c: JsString)
      requires Valid()
      modifies this, textarea
      ensures Valid()
      ensures Model() == Step(old(Model()), Edited(Draft(old(title), c, old(coverImage))))
      ensures textarea != null && c == old(content) ==>
        textarea.selectionStart == old(textarea.selectionStart) && textarea.selectionEnd == old(textarea.selectionEnd)
    {
      Change(Draft(title, c, coverImage));
    }

    method SetCoverImage(u: JsString)
      requires Valid()
      modifies this, textarea
      ensures Valid()
      ensures Model() == Step(old(Model()), Edited(Draft(old(title), old(content), u)))
      ensures textarea != null ==>
        textarea.selectionStart == old(textarea.selectionStart) && textarea.selectionEnd == old(textarea.selectionEnd)
    {
      Change(Draft(title, content, u));
    }

    /** The 500 ms timer fires and writes the values it captured. */
    method TimerFires()
      requires Valid()
      modifies this, storage
      ensures Valid()
      ensures Model() == Step(old(Model()), TimerFired)
    {
      if pending.Some? {
        storage.draft := Some(Serialize(pending.value));
        pending := None;
      }
    }

    /** `handleSave`: writes at once; the armed timer stays armed. */
    method HandleSave()
      requires Valid()
      modifies storage
      ensures Valid()
      ensures Model() == Step(old(Model()), SaveClicked)
    {
      storage.draft := Some(Serialize(Doc()));
    }

    /** `handlePublish`: writes at once, then leaves the page, whose cleanup cancels the armed timer. */
    method HandlePublish()
      requires Valid()
      modifies this, storage
      ensures Valid()
      ensures Model() == Step(old(Model()), PublishClicked)
    {
      storage.draft := Some(Serialize(Doc()));
      pending := None;
    }

    /**
     * `handleInsert`: nothing without a textarea; otherwise the content becomes
     * the built buffer and, once it has rendered, the two selection setters move
     * the selection to the requested range, clamped to the new buffer.
     */
    method HandleInsert(syntax: JsString, placeholder: Option<JsString>)
      requires Valid()
      modifies this, textarea
      ensures Valid()
      ensures textarea == null ==> Model() == old(Model())
      ensures textarea != null ==>
        var e := Insert(old(content), old(textarea.selectionStart), old(textarea.selectionEnd), syntax, placeholder);
        && Model() == Step(old(Model()), Edited(Draft(old(title), e.text, old(coverImage))))
        && textarea.selectionStart == Min(e.selectionStart, |e.text|)
        && textarea.selectionEnd == Min(e.selectionEnd, |e.text|)
    {
      if textarea == null {
        return;
      }
      var e := Insert(content, textarea.selectionStart, textarea.selectionEnd, syntax, placeholder);
      Change(Draft(title, e.text, coverImage));
      SelectionAfterSetters(|e.text|, textarea.selectionEnd, e.selectionStart, e.selectionEnd);
      textarea.SetSelectionStart(e.selectionStart);
      textarea.SetSelectionEnd(e.selectionEnd);
    }
  }

  /**
   * The statistics effect: the words are the maximal non-whitespace runs, the
   * characters the code units, the minutes the words over 200 rounded up.
   */
  method LiveStats(content: JsString) returns (words: nat, chars: nat, minutes: nat)
    ensures words == WordRuns(content) && (words == 0 <==> AllSpace(content))
    ensures chars == |content|
    ensures minutes == ReadingTime(words) && (minutes == 0 <==> AllSpace(content))
  {
    words := WordCount(content);
    chars := CharCount(content);
    minutes := ReadingTime(words);
  }

  /** Opening the editor: a draft `JSON.parse` rejects makes the mount effect throw. */
  method Open(storage: Storage, attached: bool) returns (r: Result<EditorPage>)
    ensures r.Err? <==> Mount(storage.draft).Err?
    ensures r.Ok? ==>
      fresh(r.value) && r.value.Valid() && r.value.storage == storage && r.value.Model() == Mount(storage.draft).value
  {
    var loaded := EditorLoad(storage.draft);
    if loaded.Err? {
      r := Err(loaded.error);
    } else {
      var page := new EditorPage.Mounted(storage, loaded.value, attached);
      r := Ok(page);
    }
  }

  /**
   * With a prefix or wrap syntax, a click leaves the textarea's selection on
   * exactly the inserted text.
   */
  method InsertAndSelect(page: EditorPage, syntax: JsString, placeholder: Option<JsString>)
    requires page.Valid() && page.textarea != null && ShapeOf(syntax) != Block
    modifies page, page.textarea
    ensures page.Valid()
    ensures var text := InsertedText(old(page.content[page.textarea.selectionStart..page.textarea.selectionEnd]), placeholder);
      page.content[page.textarea.selectionStart..page.textarea.selectionEnd] == text
  {
    ghost var content := page.content;
    ghost var start, end := page.textarea.selectionStart, page.textarea.selectionEnd;
    InsertSelectsInsertedText(content, start, end, syntax, placeholder);
    page.HandleInsert(syntax, placeholder);
  }
}
