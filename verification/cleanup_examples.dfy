/**
 * Worked replies: the clean-up is one pass per pattern, so a comma that only
 * becomes removable once an earlier match is gone survives and cleaning twice
 * can differ from cleaning once; and a reply in the requested compact array
 * format passes through unchanged.
 */
module CleanupExamples {
  import opened JsText
  import opened ResponseCleanup

  /** The clean-up as its five stages, one after the other. */
  lemma CleanupStages(raw: string)
    ensures CleanResponse(raw)
            == Trim(CollapseCommaBefore(CollapseCommaBefore(CollapseWhitespace(ReplaceNewlines(Trim(raw))), ']'), ','))
  {
  }

  /** Text that is trimmed, single-spaced and free of line breaks reaches the comma passes unchanged. */
  lemma SpacedTextReachesCommaPasses(s: string)
    requires Trimmed(s) && NoAdjacentWhitespace(s) && OnlyPlainSpaces(s)
    ensures CollapseWhitespace(ReplaceNewlines(Trim(s))) == s
  {
    TrimOfTrimmed(s);
    ReplaceNewlinesKeepsPlainSpaced(s);
    CollapseWhitespaceKeepsSpaced(s);
  }

  lemma CommaGapIsSpaced()
    ensures Trimmed(", , ]") && NoAdjacentWhitespace(", , ]") && OnlyPlainSpaces(", , ]")
  {
  }

  /** `,\s*]` matches only the second comma; the first is then followed by a space and `]`, too late. */
  lemma TrailingCommaPassKeepsFirstComma()
    ensures CollapseCommaBefore(", , ]", ']') == ", ]"
  {
  }

  lemma DoubleCommaPassFindsNothing()
    ensures CollapseCommaBefore(", ]", ',') == ", ]"
    ensures Trimmed(", ]")
  {
  }

  /** A reply ending in `, , ]` still has a comma before the bracket after clean-up. */
  lemma CleanupKeepsCommaBeforeBracket()
    ensures CleanResponse(", , ]") == ", ]"
  {
    CleanupStages(", , ]");
    CommaGapIsSpaced();
    SpacedTextReachesCommaPasses(", , ]");
    TrailingCommaPassKeepsFirstComma();
    DoubleCommaPassFindsNothing();
    TrimOfTrimmed(", ]");
  }

  /** A run of commas reaches the double-comma pass unchanged. */
  lemma CommaRunReachesDoubleCommaPass(s: string)
    requires forall i :: 0 <= i < |s| ==> s[i] == ','
    ensures CollapseCommaBefore(CollapseWhitespace(ReplaceNewlines(Trim(s))), ']') == s
  {
    assert Trimmed(s) && NoAdjacentWhitespace(s) && OnlyPlainSpaces(s);
    SpacedTextReachesCommaPasses(s);
    NoMatchWithoutCommaOrCloser(s, ']');
    CollapseCommaWithoutMatch(s, ']');
  }

  /** `,\s*,` consumes two commas and resumes after them, so of three commas two remain. */
  lemma DoubleCommaPassIsSinglePass()
    ensures CollapseCommaBefore(",,,", ',') == ",,"
    ensures CollapseCommaBefore(",,", ',') == ","
    ensures Trimmed(",,") && Trimmed(",")
  {
  }

  lemma CommaRunsAreCommas()
    ensures forall i :: 0 <= i < |",,,"| ==> ",,,"[i] == ','
    ensures forall i :: 0 <= i < |",,"| ==> ",,"[i] == ','
  {
  }

  /** Three commas in a row lose one per clean-up, so the clean-up is not idempotent. */
  lemma CleanupIsNotIdempotent()
    ensures CleanResponse(",,,") == ",,"
    ensures CleanResponse(",,") == ","
    ensures CleanResponse(CleanResponse(",,,")) != CleanResponse(",,,")
  {
    CleanupStages(",,,");
    CleanupStages(",,");
    CommaRunsAreCommas();
    CommaRunReachesDoubleCommaPass(",,,");
    CommaRunReachesDoubleCommaPass(",,");
    DoubleCommaPassIsSinglePass();
    TrimOfTrimmed(",,");
    TrimOfTrimmed(",");
  }

  lemma ItemGapIsSpaced()
    ensures Trimmed("[\"a, ,b\"]") && NoAdjacentWhitespace("[\"a, ,b\"]") && OnlyPlainSpaces("[\"a, ,b\"]")
  {
  }

  /** Neither comma of `["a, ,b"]` is followed by `]`: the left part has no `]`, the right part no comma. */
  lemma ItemGapBracketPassFindsNothing()
    ensures CollapseCommaBefore("[\"a, ,b\"]", ']') == "[\"a, ,b\"]"
  {
    NoMatchWithoutCommaOrCloser("[\"a, ,", ']');
    NoMatchWithoutCommaOrCloser("b\"]", ']');
    NoMatchAppend("[\"a, ,", "b\"]", ']');
    assert "[\"a, ," + "b\"]" == "[\"a, ,b\"]";
    CollapseCommaWithoutMatch("[\"a, ,b\"]", ']');
  }

  /** `, ,` between comma-free text: the double-comma pass leaves a single comma. */
  lemma {:induction false} CommaGapCollapses(head: string, tail: string)
    requires forall i :: 0 <= i < |head| ==> head[i] != ','
    requires forall i :: 0 <= i < |tail| ==> tail[i] != ','
    ensures CollapseCommaBefore(head + ", ," + tail, ',') == head + "," + tail
    decreases |head|
  {
    if head == [] {
      var s := ", ," + tail;
      assert head + ", ," + tail == s;
      assert s[1..] == " ," + tail;
      assert LeadingWhitespace(s[1..]) == 1 by {
        assert s[1..][1..] == "," + tail;
      }
      assert s[3..] == tail;
      NoMatchWithoutCommaOrCloser(tail, ',');
      CollapseCommaWithoutMatch(tail, ',');
    } else {
      CommaGapCollapses(head[1..], tail);
      assert head + ", ," + tail == [head[0]] + (head[1..] + ", ," + tail);
      CollapseCommaCopiesOther(head[0], head[1..] + ", ," + tail, ',');
      assert head + "," + tail == [head[0]] + (head[1..] + "," + tail);
    }
  }

  /** `,\s*,` matches `, ,` inside the item and leaves one comma. */
  lemma ItemGapCommaPassJoins()
    ensures CollapseCommaBefore("[\"a, ,b\"]", ',') == "[\"a,b\"]"
    ensures Trimmed("[\"a,b\"]")
  {
    CommaGapCollapses("[\"a", "b\"]");
    assert "[\"a" + ", ," + "b\"]" == "[\"a, ,b\"]";
    assert "[\"a" + "," + "b\"]" == "[\"a,b\"]";
  }

  /** The clean-up rewrites item text too: the item `a, ,b` comes back as `a,b`. */
  lemma CleanupRewritesItemText()
    ensures CleanResponse("[\"a, ,b\"]") == "[\"a,b\"]"
  {
    CleanupStages("[\"a, ,b\"]");
    ItemGapIsSpaced();
    SpacedTextReachesCommaPasses("[\"a, ,b\"]");
    ItemGapBracketPassFindsNothing();
    ItemGapCommaPassJoins();
    TrimOfTrimmed("[\"a,b\"]");
  }

  /** `"t"`: a JSON string literal, for text that needs no escapes. */
  function Quoted(t: string): string {
    "\"" + t + "\""
  }

  /** `,"t"` for every item, in order. */
  function QuotedTail(items: seq<string>): string
    decreases |items|
  {
    if items == [] then [] else "," + Quoted(items[0]) + QuotedTail(items[1..])
  }

  /** `["a","b","c"]`: the compact JSON array of strings the generator is asked to answer with. */
  function CompactArray(items: seq<string>): string
    requires items != []
  {
    "[" + Quoted(items[0]) + QuotedTail(items[1..]) + "]"
  }

  /**
   * Single plain spaces and no match of `/,\s*]/` or `/,\s*,/`: what the
   * clean-up leaves alone, and what item text of the requested kind looks
   * like (commas inside an item are allowed).
   */
  predicate WellSpaced(s: string) {
    && NoAdjacentWhitespace(s) && OnlyPlainSpaces(s)
    && !HasCommaMatch(s, ']') && !HasCommaMatch(s, ',')
  }

  /** A seam that is safe for both comma patterns. */
  predicate SafeJoin(a: string, b: string) {
    || a == [] || b == []
    || (!IsWhitespace(a[|a| - 1]) && a[|a| - 1] != ',')
    || (!IsWhitespace(b[0]) && b[0] != ']' && b[0] != ',')
  }

  lemma WellSpacedAppend(a: string, b: string)
    requires WellSpaced(a) && WellSpaced(b) && SafeJoin(a, b)
    ensures WellSpaced(a + b)
  {
    var s := a + b;
    assert forall i :: 0 <= i < |a| ==> s[i] == a[i];
    assert forall i :: |a| <= i < |s| ==> s[i] == b[i - |a|];
    NoMatchAppend(a, b, ']');
    NoMatchAppend(a, b, ',');
  }

  /** One character that is neither whitespace nor a comma. */
  lemma MarkWellSpaced(c: char)
    requires !IsWhitespace(c) && c != ','
    ensures WellSpaced([c])
  {
    SingleCharNoMatch(c, ']');
    SingleCharNoMatch(c, ',');
  }

  lemma QuotedWellSpaced(t: string)
    requires WellSpaced(t)
    ensures WellSpaced(Quoted(t))
    ensures Quoted(t)[0] == '"' && Quoted(t)[|Quoted(t)| - 1] == '"'
  {
    MarkWellSpaced('"');
    WellSpacedAppend("\"", t);
    WellSpacedAppend("\"" + t, "\"");
  }

  lemma {:induction false} QuotedTailWellSpaced(items: seq<string>)
    requires forall k :: 0 <= k < |items| ==> WellSpaced(items[k])
    ensures WellSpaced(QuotedTail(items))
    ensures QuotedTail(items) != [] ==> QuotedTail(items)[|QuotedTail(items)| - 1] == '"'
    decreases |items|
  {
    if items != [] {
      var q := Quoted(items[0]);
      QuotedWellSpaced(items[0]);
      QuotedTailWellSpaced(items[1..]);
      SingleCharNoMatch(',', ']');
      SingleCharNoMatch(',', ',');
      WellSpacedAppend(",", q);
      assert ("," + q)[|"," + q| - 1] == '"';
      WellSpacedAppend("," + q, QuotedTail(items[1..]));
    }
  }

  /** The array text is trimmed and well spaced. */
  lemma CompactArrayWellSpaced(items: seq<string>)
    requires items != []
    requires forall k :: 0 <= k < |items| ==> WellSpaced(items[k])
    ensures Trimmed(CompactArray(items)) && WellSpaced(CompactArray(items))
  {
    var q := Quoted(items[0]);
    var tail := QuotedTail(items[1..]);
    QuotedWellSpaced(items[0]);
    QuotedTailWellSpaced(items[1..]);
    MarkWellSpaced('[');
    MarkWellSpaced(']');
    WellSpacedAppend("[", q);
    assert ("[" + q)[|"[" + q| - 1] == '"';
    WellSpacedAppend("[" + q, tail);
    assert ("[" + q + tail)[|"[" + q + tail| - 1] == '"';
    WellSpacedAppend("[" + q + tail, "]");
  }

  /**
   * A reply in the requested format passes through the clean-up unchanged
   * when each item is single-spaced and, inside it, no comma is followed
   * (after optional spaces) by `]` or `,`.
   */
  lemma CompactArraySurvivesCleanup(items: seq<string>)
    requires items != []
    requires forall k :: 0 <= k < |items| ==> WellSpaced(items[k])
    ensures CleanResponse(CompactArray(items)) == CompactArray(items)
  {
    CompactArrayWellSpaced(items);
    CleanResponseKeepsWellFormed(CompactArray(items));
  }
}
