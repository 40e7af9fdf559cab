/**
 * The `blog-draft` slot of `localStorage`: what is written to it, how the
 * editor and the publish page read it back, and the debounced autosave of the
 * editor as a state machine over abstract events (an edit, the 500 ms timer
 * firing, the Save and Publish buttons).
 */
module Drafts {
  import opened JsText
  import opened Stats

  /** The document being edited. */
  datatype Draft = Draft(title: JsString, content: JsString, coverImage: JsString)

  /** A parsed draft: each property is a string or missing (`undefined`). */
  datatype StoredRecord = StoredRecord(title: Option<JsString>, content: Option<JsString>, coverImage: Option<JsString>)

  /** The text under `blog-draft`, as `JSON.parse` sees it: an object, or text it rejects. */
  datatype StoredText = Json(record: StoredRecord) | NotJson

  /** Why mounting a page fails: `JSON.parse` throws, or the publish page calls `trim` on a missing content. */
  datatype LoadError = MalformedDraft | ContentNotString

  datatype Result<+T> = Ok(value: T) | Err(error: LoadError)

  const UNTITLED: JsString := Literal("Untitled Post")

  /** `field || fallback` for an optional string: missing and empty both fall back. */
  function Or(field: Option<JsString>, fallback: JsString): JsString
  {
    if field.Some? && field.value != [] then field.value else fallback
  }

  /** How the editor's mount effect reads the slot (Index.tsx:35-43); no draft leaves the empty document. */
  function EditorLoad(slot: Option<StoredText>): (r: Result<Draft>)
    ensures r.Err? <==> slot == Some(NotJson)
    ensures slot.None? ==> r == Ok(Draft([], [], []))
    ensures slot.Some? && slot.value.Json? ==>
      var rec := slot.value.record;
      && r.Ok?
      && r.value.title == (if rec.title.Some? then rec.title.value else [])
      && r.value.content == (if rec.content.Some? then rec.content.value else [])
      && r.value.coverImage == (if rec.coverImage.Some? then rec.coverImage.value else [])
  {
    match slot
    case None => Ok(Draft([], [], []))
    case Some(NotJson) => Err(MalformedDraft)
    case Some(Json(rec)) => Ok(Draft(Or(rec.title, []), Or(rec.content, []), Or(rec.coverImage, [])))
  }

  /** `JSON.stringify({ title, content, coverImage })`: the editor reads back exactly what it wrote. */
  function Serialize(d: Draft): (stored: StoredText)
    ensures EditorLoad(Some(stored)) == Ok(d)
  {
    Json(StoredRecord(Some(d.title), Some(d.content), Some(d.coverImage)))
  }

  /** The state of the publish page after its mount effect; the date is the caller's formatted clock reading. */
  datatype PublishView = PublishView(title: JsString, content: JsString, coverImage: JsString, publishDate: JsString, readingTime: nat)

  /** How the publish page reads the slot (Publish.tsx:17-38). */
  function PublishLoad(slot: Option<StoredText>, today: JsString): (r: Result<PublishView>)
    ensures slot.None? ==> r == Ok(PublishView([], [], [], [], 0))
    ensures slot == Some(NotJson) ==> r == Err(MalformedDraft)
    ensures slot.Some? && slot.value.Json? ==> (r.Err? <==> slot.value.record.content.None?)
    ensures r.Ok? && slot.Some? ==> r.value.title != [] && r.value.readingTime >= 1 && r.value.publishDate == today
    ensures r.Ok? && slot.Some? ==>
      var rec := slot.value.record;
      && (rec.title.None? || rec.title.value == [] ==> r.value.title == UNTITLED)
      && (rec.title.Some? && rec.title.value != [] ==> r.value.title == rec.title.value)
      && r.value.content == rec.content.value
      && r.value.coverImage == (if rec.coverImage.Some? then rec.coverImage.value else [])
      && r.value.readingTime == PublishReadingTime(r.value.content)
  {
    match slot
    case None => Ok(PublishView([], [], [], [], 0))
    case Some(NotJson) => Err(MalformedDraft)
    case Some(Json(rec)) =>
      if rec.content.None? then Err(ContentNotString)
      else Ok(PublishView(Or(rec.title, UNTITLED), rec.content.value, Or(rec.coverImage, []), today,
                          PublishReadingTime(rec.content.value)))
  }

  /** What the publish page shows for a draft the editor saved: an empty title becomes "Untitled Post". */
  lemma PublishAfterSave(d: Draft, today: JsString)
    ensures PublishLoad(Some(Serialize(d)), today)
      == Ok(PublishView(if d.title == [] then UNTITLED else d.title, d.content, d.coverImage, today, PublishReadingTime(d.content)))
  {
  }

  /**
   * The editor's persistence state: the document, the values captured by the
   * armed autosave timer (if one is armed) and the stored slot.
   */
  datatype Session = Session(doc: Draft, pending: Option<Draft>, slot: Option<StoredText>)

  datatype Event = Edited(next: Draft) | TimerFired | SaveClicked | PublishClicked

  /** An armed timer always holds the current document. */
  predicate PendingIsCurrent(s: Session)
  {
    s.pending == None || s.pending == Some(s.doc)
  }

  /**
   * Mounting the editor: the restored draft is in place and a timer is armed
   * with it (the autosave effect runs after the mount effect, and again once the
   * restored values render).
   */
  function Mount(slot: Option<StoredText>): (r: Result<Session>)
    ensures r.Err? <==> slot == Some(NotJson)
    ensures r.Ok? ==> r.value.slot == slot && r.value.pending == Some(r.value.doc)
    ensures r.Ok? ==> r.value.doc == EditorLoad(slot).value
  {
    match EditorLoad(slot)
    case Err(e) => Err(e)
    case Ok(d) => Ok(Session(d, Some(d), slot))
  }

  /**
   * One event. An edit that changes the document cancels the armed timer and
   * arms a new one with the new values; an edit that changes nothing does not
   * re-run the effect. The timer writes what it captured. Save writes at once
   * and leaves the timer armed; Publish writes at once and leaves the page,
   * whose cleanup cancels the timer.
   */
  function Step(s: Session, e: Event): (t: Session)
    ensures PendingIsCurrent(s) ==> PendingIsCurrent(t)
  {
    match e
    case Edited(d) => if d == s.doc then s else s.(doc := d, pending := Some(d))
    case TimerFired => if s.pending.Some? then s.(slot := Some(Serialize(s.pending.value)), pending := None) else s
    case SaveClicked => s.(slot := Some(Serialize(s.doc)))
    case PublishClicked => s.(slot := Some(Serialize(s.doc)), pending := None)
  }

  function Run(s: Session, events: seq<Event>): (t: Session)
    ensures PendingIsCurrent(s) ==> PendingIsCurrent(t)
    decreases |events|
  {
    if events == [] then s else Run(Step(s, events[0]), events[1..])
  }

  /** A burst of edits with no timer firing in between. */
  function Edits(ds: seq<Draft>): seq<Event>
  {
    seq(|ds|, i requires 0 <= i < |ds| => Edited(ds[i]))
  }

  lemma {:induction false} RunAppend(s: Session, a: seq<Event>, b: seq<Event>)
    ensures Run(s, a + b) == Run(Run(s, a), b)
    decreases |a|
  {
    if a == [] {
      assert a + b == b;
    } else {
      assert (a + b)[1..] == a[1..] + b;
      RunAppend(Step(s, a[0]), a[1..], b);
    }
  }

  /**
   * During a burst nothing is written; the document ends as the last edit, and
   * once the document has changed a timer is armed with it. A timer is armed at
   * the end exactly when one was armed before or some edit of the burst differs
   * from the starting document.
   */
  lemma {:induction false} BurstWritesNothing(s: Session, ds: seq<Draft>)
    ensures var t := Run(s, Edits(ds));
      && t.slot == s.slot
      && (ds != [] ==> t.doc == ds[|ds| - 1])
      && (s.pending.Some? ==> t.pending.Some?)
      && (t.doc != s.doc ==> t.pending == Some(t.doc))
      && (t.pending.Some? <==> s.pending.Some? || exists i :: 0 <= i < |ds| && ds[i] != s.doc)
    decreases |ds|
  {
    if ds != [] {
      var s1 := Step(s, Edited(ds[0]));
      assert Edits(ds)[0] == Edited(ds[0]);
      assert Edits(ds)[1..] == Edits(ds[1..]);
      BurstWritesNothing(s1, ds[1..]);
      if ds[0] == s.doc {
        assert s1 == s;
        assert (exists i :: 0 <= i < |ds| && ds[i] != s.doc) <==> (exists j :: 0 <= j < |ds[1..]| && ds[1..][j] != s.doc) by {
          forall i | 0 <= i < |ds| && ds[i] != s.doc
            ensures exists j :: 0 <= j < |ds[1..]| && ds[1..][j] != s.doc
          {
            assert ds[1..][i - 1] == ds[i];
          }
        }
      }
      if ds[1..] == [] {
        assert Edits(ds[1..]) == [];
      } else {
        assert ds[1..][|ds[1..]| - 1] == ds[|ds| - 1];
      }
    }
  }

  /**
   * Debouncing: a burst of edits followed by the timer firing writes at most
   * once, and what it writes is the last edit. That write happens exactly when a
   * timer was armed before the burst or some edit of the burst differed from the
   * starting document (even if the burst ends where it started); otherwise the
   * slot is untouched.
   */
  lemma Coalescing(s: Session, ds: seq<Draft>)
    requires PendingIsCurrent(s) && ds != []
    ensures var t := Run(s, Edits(ds) + [TimerFired]);
      var last := ds[|ds| - 1];
      && t.doc == last
      && t.pending == None
      && (t.slot == s.slot || t.slot == Some(Serialize(last)))
      && (last != s.doc ==> t.slot == Some(Serialize(last)))
      && (s.pending.Some? || (exists i :: 0 <= i < |ds| && ds[i] != s.doc) ==> t.slot == Some(Serialize(last)))
      && (s.pending.None? && (forall i :: 0 <= i < |ds| ==> ds[i] == s.doc) ==> t.slot == s.slot)
  {
    RunAppend(s, Edits(ds), [TimerFired]);
    BurstWritesNothing(s, ds);
    var u := Run(s, Edits(ds));
    assert Run(u, [TimerFired]) == Step(u, TimerFired);
  }

  /** Save and Publish write the current document at once, and loading gives it back. */
  lemma SaveThenLoad(s: Session, e: Event)
    requires e == SaveClicked || e == PublishClicked
    ensures Step(s, e).doc == s.doc
    ensures Step(s, e).slot == Some(Serialize(s.doc))
    ensures EditorLoad(Step(s, e).slot) == Ok(s.doc)
    ensures Mount(Step(s, e).slot) == Ok(Session(s.doc, Some(s.doc), Some(Serialize(s.doc))))
  {
  }
}
