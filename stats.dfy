/**
 * The live statistics of the editor (word count, character count, reading
 * time) and the second reading-time formula of the publish page.
 */
module Stats {
  import opened JsText

  const WORDS_PER_MINUTE: nat := 200

  /** A maximal run of whitespace (`space`) or of other code units (`!space`) begins at `i`. */
  predicate RunStartsAt(s: JsString, i: nat, space: bool)
    requires i < |s|
  {
    IsSpace(s[i]) == space && (i == 0 || IsSpace(s[i - 1]) != space)
  }

  /** The number of runs of the given kind that begin at or after `i`. */
  function RunsFrom(s: JsString, i: nat, space: bool): nat
    decreases |s| - i
  {
    if i >= |s| then 0
    else (if RunStartsAt(s, i, space) then 1 else 0) + RunsFrom(s, i + 1, space)
  }

  /** The number of maximal non-whitespace runs: the words of `s`. */
  function WordRuns(s: JsString): nat
  {
    RunsFrom(s, 0, false)
  }

  /** The number of maximal whitespace runs of `s`. */
  function SpaceRuns(s: JsString): nat
  {
    RunsFrom(s, 0, true)
  }

  /** `s.split(/\s+/).filter(Boolean).length`. */
  function CountPieces(s: JsString): nat
  {
    |DropEmpty(SplitOnSpaces(s))|
  }

  /** The word count of the editor: `content.trim().split(/\s+/).filter(Boolean).length`. */
  function WordCount(content: JsString): (words: nat)
    ensures words == WordRuns(content)
    ensures words == 0 <==> AllSpace(content)
  {
    TrimmedPiecesAreWordRuns(content);
    var t := Trim(content);
    assert t != [] ==> DropEmpty(SplitOnSpaces(t)) == [SplitOnSpaces(t)[0]] + DropEmpty(SplitOnSpaces(t)[1..]);
    CountPieces(t)
  }

  /** The character count of the editor: `content.length`, in UTF-16 code units. */
  function CharCount(content: JsString): nat
  {
    |content|
  }

  /** `Math.ceil(words / 200)`. */
  function ReadingTime(words: nat): (minutes: nat)
    ensures minutes == 0 <==> words == 0
    ensures words > 0 ==> (minutes - 1) * WORDS_PER_MINUTE < words <= minutes * WORDS_PER_MINUTE
  {
    (words + WORDS_PER_MINUTE - 1) / WORDS_PER_MINUTE
  }

  /**
   * The reading time of the publish page: `Math.ceil(content.trim().split(/\s+/).length / 200)`.
   * Without the filter, the empty content still counts as one piece.
   */
  function PublishReadingTime(content: JsString): (minutes: nat)
    ensures minutes >= 1
  {
    ReadingTime(|SplitOnSpaces(Trim(content))|)
  }

  /** A character outside the Basic Multilingual Plane counts twice: it is two code units. */
  lemma {:induction false} CharCountOfText(s: string)
    ensures CharCount(Utf16(s)) == |s| + Astral(s)
  {
    if s != [] {
      CharCountOfText(s[1..]);
    }
  }

  /** One step of the piece count: a piece is counted where a word ends. */
  lemma PiecesStep(x: JsString)
    requires x != []
    ensures CountPieces(x) == CountPieces(x[1..]) + (if !IsSpace(x[0]) && (|x| == 1 || IsSpace(x[1])) then 1 else 0)
  {
    var rest := SplitOnSpaces(x[1..]);
    if IsSpace(x[0]) {
      if !(|x| > 1 && IsSpace(x[1])) {
        assert SplitOnSpaces(x) == [[]] + rest;
        assert ([[]] + rest)[1..] == rest;
      }
    } else {
      var first := [x[0]] + rest[0];
      assert SplitOnSpaces(x) == [first] + rest[1..];
      assert ([first] + rest[1..])[1..] == rest[1..];
      assert DropEmpty(rest) == (if rest[0] == [] then [] else [rest[0]]) + DropEmpty(rest[1..]);
    }
  }

  /** Whitespace alone holds no words. */
  lemma {:induction false} NoPiecesInSpaces(q: JsString)
    requires AllSpace(q)
    ensures CountPieces(q) == 0
    decreases |q|
  {
    if q != [] {
      PiecesStep(q);
      NoPiecesInSpaces(q[1..]);
    }
  }

  /** Trailing whitespace adds no words. */
  lemma {:induction false} TrailingSpacesAddNoPieces(p: JsString, q: JsString)
    requires AllSpace(q)
    ensures CountPieces(p + q) == CountPieces(p)
    decreases |p|
  {
    if p == [] {
      assert p + q == q;
      NoPiecesInSpaces(q);
    } else {
      TrailingSpacesAddNoPieces(p[1..], q);
      assert (p + q)[1..] == p[1..] + q;
      PiecesStep(p + q);
      PiecesStep(p);
    }
  }

  /**
   * The words of a suffix are the word runs beginning in it, plus one when the
   * suffix cuts a word in two.
   */
  lemma {:induction false} PiecesOfSuffix(s: JsString, i: nat)
    requires i <= |s|
    ensures CountPieces(s[i..]) == RunsFrom(s, i, false) + (if 0 < i < |s| && !IsSpace(s[i - 1]) && !IsSpace(s[i]) then 1 else 0)
    decreases |s| - i
  {
    if i < |s| {
      PiecesOfSuffix(s, i + 1);
      PiecesStep(s[i..]);
      assert s[i..][1..] == s[i + 1..];
    }
  }

  /** Runs cannot begin inside leading whitespace. */
  lemma {:induction false} RunsSkipSpaces(s: JsString, j: nat, a: nat, space: bool)
    requires j <= a <= |s|
    requires forall k :: j <= k < a ==> IsSpace(s[k]) != space
    ensures RunsFrom(s, j, space) == RunsFrom(s, a, space)
    decreases a - j
  {
    if j < a {
      RunsSkipSpaces(s, j + 1, a, space);
    }
  }

  /** Splitting the trimmed content and dropping empty pieces counts the word runs of the content. */
  lemma TrimmedPiecesAreWordRuns(content: JsString)
    ensures CountPieces(Trim(content)) == WordRuns(content)
  {
    var a := LeadingSpaces(content);
    var rest := content[a..];
    var b := TrailingStart(rest);
    assert Trim(content) == rest[..b];
    assert rest == rest[..b] + rest[b..];
    TrailingSpacesAddNoPieces(rest[..b], rest[b..]);
    assert forall k :: 0 <= k < a ==> content[..a][k] == content[k];
    PiecesOfSuffix(content, a);
    RunsSkipSpaces(content, 0, a, false);
  }

  /** One step of the unfiltered piece count: a piece is added where a whitespace run ends. */
  lemma SplitStep(x: JsString)
    requires x != []
    ensures |SplitOnSpaces(x)| == |SplitOnSpaces(x[1..])| + (if IsSpace(x[0]) && !(|x| > 1 && IsSpace(x[1])) then 1 else 0)
  {
  }

  /** The unfiltered pieces of a suffix: one more than the whitespace runs beginning in it. */
  lemma {:induction false} SplitOfSuffix(s: JsString, i: nat)
    requires i <= |s|
    ensures |SplitOnSpaces(s[i..])| == 1 + RunsFrom(s, i, true) + (if 0 < i < |s| && IsSpace(s[i - 1]) && IsSpace(s[i]) then 1 else 0)
    decreases |s| - i
  {
    if i < |s| {
      SplitOfSuffix(s, i + 1);
      SplitStep(s[i..]);
      assert s[i..][1..] == s[i + 1..];
    }
  }

  /** The publish page counts one more than the whitespace runs of the trimmed content. */
  lemma PublishPiecesAreSpaceRuns(content: JsString)
    ensures |SplitOnSpaces(Trim(content))| == 1 + SpaceRuns(Trim(content))
  {
    var t := Trim(content);
    assert t[0..] == t;
    SplitOfSuffix(t, 0);
  }

  /** When `u` ends in a non-space, every piece after the first is non-empty. */
  lemma {:induction false} LaterPiecesNonEmpty(u: JsString)
    requires u != [] && !IsSpace(u[|u| - 1])
    ensures forall k :: 1 <= k < |SplitOnSpaces(u)| ==> SplitOnSpaces(u)[k] != []
    decreases |u|
  {
    if |u| > 1 {
      LaterPiecesNonEmpty(u[1..]);
    }
  }

  /**
   * The two reading-time formulas agree except on empty or all-whitespace
   * content, where the editor shows 0 minutes and the publish page 1.
   */
  lemma PublishReadingTimeAgrees(content: JsString)
    ensures PublishReadingTime(content) == if WordCount(content) == 0 then 1 else ReadingTime(WordCount(content))
  {
    var t := Trim(content);
    if t != [] {
      LaterPiecesNonEmpty(t);
      assert DropEmpty(SplitOnSpaces(t)) == SplitOnSpaces(t);
    }
  }
}
