/**
 * The defensive clean-up `generateSteps` applies to the step generator's raw
 * reply before handing it to the JSON decoder: trim, then four global
 * regular-expression replacements applied one after the other, then trim
 * again. Each replacement is a single left-to-right scan that resumes after
 * the text it replaced, as `String.prototype.replace` with the `g` flag does.
 */
module ResponseCleanup {
  import opened JsText

  /** `.replace(/\n/g, ' ')`: every line feed becomes a space and nothing else moves. */
  function ReplaceNewlines(s: string): (r: string)
    ensures |r| == |s|
    ensures '\n' !in r
    ensures forall i :: 0 <= i < |s| && s[i] != '\n' ==> r[i] == s[i]
    ensures forall i :: 0 <= i < |s| && s[i] == '\n' ==> r[i] == ' '
    ensures Erase(r, IsSeparator) == Erase(s, IsSeparator)
    decreases |s|
  {
    if s == [] then []
    else [if s[0] == '\n' then ' ' else s[0]] + ReplaceNewlines(s[1..])
  }

  /** `.replace(/\s+/g, ' ')`: each maximal run of whitespace becomes one plain space. */
  function CollapseWhitespace(s: string): (r: string)
    ensures |r| <= |s|
    ensures |s| > 0 ==> |r| > 0 && (IsWhitespace(r[0]) <==> IsWhitespace(s[0]))
    ensures NoAdjacentWhitespace(r)
    ensures OnlyPlainSpaces(r)
    ensures Erase(r, IsWhitespace) == Erase(s, IsWhitespace)
    ensures Erase(r, IsSeparator) == Erase(s, IsSeparator)
    decreases |s|
  {
    if s == [] then []
    else if IsWhitespace(s[0]) then
      var run := LeadingWhitespace(s);
      EraseSkipsPrefix(s, run, IsWhitespace);
      EraseSkipsPrefix(s, run, IsSeparator);
      [' '] + CollapseWhitespace(s[run..])
    else
      [s[0]] + CollapseWhitespace(s[1..])
  }

  /** A whitespace run followed by text that does not open with whitespace collapses to one space. */
  lemma CollapseRunThen(w: string, y: string)
    requires w != [] && forall i :: 0 <= i < |w| ==> IsWhitespace(w[i])
    requires y == [] || !IsWhitespace(y[0])
    ensures CollapseWhitespace(w + y) == [' '] + CollapseWhitespace(y)
  {
    LeadingWhitespaceAppend(w, y);
    assert (w + y)[0] == w[0];
    assert (w + y)[|w|..] == y;
  }

  /** An opening whitespace run that stops inside `x` collapses the same way whatever follows `x`. */
  lemma CollapseRunWithin(x: string, t: string)
    requires x != [] && IsWhitespace(x[0])
    requires LeadingWhitespace(x) < |x|
    ensures CollapseWhitespace(x + t) == [' '] + CollapseWhitespace(x[LeadingWhitespace(x)..] + t)
    ensures CollapseWhitespace(x) == [' '] + CollapseWhitespace(x[LeadingWhitespace(x)..])
  {
    LeadingWhitespaceAppend(x, t);
    assert (x + t)[0] == x[0];
    assert (x + t)[LeadingWhitespace(x)..] == x[LeadingWhitespace(x)..] + t;
  }

  /** A first character that is not whitespace is kept whatever follows it. */
  lemma CollapseWordThen(x: string, t: string)
    requires x != [] && !IsWhitespace(x[0])
    ensures CollapseWhitespace(x + t) == [x[0]] + CollapseWhitespace(x[1..] + t)
    ensures CollapseWhitespace(x) == [x[0]] + CollapseWhitespace(x[1..])
  {
    assert (x + t)[0] == x[0];
    assert (x + t)[1..] == x[1..] + t;
  }

  /** Cutting the text right after a character that is not whitespace cuts no run: each side collapses alone. */
  lemma {:induction false} CollapseWhitespaceSplits(x: string, t: string)
    requires x == [] || !IsWhitespace(x[|x| - 1])
    ensures CollapseWhitespace(x + t) == CollapseWhitespace(x) + CollapseWhitespace(t)
    decreases |x|
  {
    if x == [] {
      assert x + t == t;
    } else {
      var head, u;
      if IsWhitespace(x[0]) {
        assert LeadingWhitespace(x) < |x|;
        head, u := ' ', x[LeadingWhitespace(x)..];
        SuffixKeepsLast(x, LeadingWhitespace(x));
        CollapseRunWithin(x, t);
      } else {
        head, u := x[0], x[1..];
        if |x| > 1 {
          SuffixKeepsLast(x, 1);
        }
        CollapseWordThen(x, t);
      }
      CollapseWhitespaceSplits(u, t);
      ConsAssociates(head, CollapseWhitespace(u), CollapseWhitespace(t));
    }
  }

  /**
   * Each whitespace run between two pieces of text becomes exactly one space,
   * so neighbouring words stay apart and the pieces are collapsed on their own.
   */
  lemma CollapseWhitespaceSeparates(x: string, w: string, y: string)
    requires x == [] || !IsWhitespace(x[|x| - 1])
    requires w != [] && forall i :: 0 <= i < |w| ==> IsWhitespace(w[i])
    requires y == [] || !IsWhitespace(y[0])
    ensures CollapseWhitespace(x + w + y) == CollapseWhitespace(x) + [' '] + CollapseWhitespace(y)
  {
    ConcatAssociates(x, w, y);
    CollapseWhitespaceSplits(x, w + y);
    CollapseRunThen(w, y);
    ConcatAssociates(CollapseWhitespace(x), [' '], CollapseWhitespace(y));
  }

  lemma SuffixKeepsLast(s: string, k: nat)
    requires k < |s|
    ensures s[k..][|s| - k - 1] == s[|s| - 1]
  {
  }

  lemma ConcatAssociates(a: string, b: string, c: string)
    ensures a + (b + c) == a + b + c
  {
  }

  lemma ConsAssociates(c: char, a: string, b: string)
    ensures [c] + (a + b) == [c] + a + b
  {
  }

  /** Text whose only whitespace is plain spaces has no line feed to replace. */
  lemma ReplaceNewlinesKeepsPlainSpaced(s: string)
    requires OnlyPlainSpaces(s)
    ensures ReplaceNewlines(s) == s
  {
    assert forall i :: 0 <= i < |s| ==> s[i] != '\n' by {
      assert IsWhitespace('\n');
    }
  }

  /** Text whose whitespace is already single plain spaces is left alone by the whitespace pass. */
  lemma {:induction false} CollapseWhitespaceKeepsSpaced(s: string)
    requires NoAdjacentWhitespace(s) && OnlyPlainSpaces(s)
    ensures CollapseWhitespace(s) == s
    decreases |s|
  {
    if s != [] {
      NoAdjacentWhitespaceSuffix(s, 1);
      OnlyPlainSpacesSuffix(s, 1);
      CollapseWhitespaceKeepsSpaced(s[1..]);
      if IsWhitespace(s[0]) {
        assert |s| > 1 ==> !IsWhitespace(s[1]);
        assert LeadingWhitespace(s) == 1;
      }
      assert s == [s[0]] + s[1..];
    }
  }

  /**
   * `.replace(/,\s*C/g, C)` for a non-whitespace character `C`: a comma
   * followed by any whitespace and then `C` is replaced by `C` alone. With
   * `C` = `]` this is the trailing-comma pass, with `C` = `,` the
   * double-comma pass.
   */
  function CollapseCommaBefore(s: string, closer: char): (r: string)
    requires !IsWhitespace(closer)
    ensures |r| <= |s|
    ensures |s| > 0 ==> |r| > 0 && (IsWhitespace(r[0]) <==> IsWhitespace(s[0]))
    decreases |s|
  {
    if s == [] then []
    else
      var k := CommaMatchEnd(s);
      if s[0] == ',' && k < |s| && s[k] == closer then
        [closer] + CollapseCommaBefore(s[k + 1..], closer)
      else
        [s[0]] + CollapseCommaBefore(s[1..], closer)
  }

  /** Where `,\s*` starting at the first character of `s` stops: the index after the comma and its whitespace. */
  function CommaMatchEnd(s: string): (k: nat)
    requires s != []
    ensures 1 <= k <= |s|
    ensures forall i :: 1 <= i < k ==> IsWhitespace(s[i])
    ensures k < |s| ==> !IsWhitespace(s[k])
  {
    var n := LeadingWhitespace(s[1..]);
    assert forall i :: 1 <= i < 1 + n ==> s[i] == s[1..][i - 1];
    1 + n
  }

  /** Both comma passes keep whitespace runs at most one character long. */
  lemma {:induction false} CollapseCommaKeepsSingleSpacing(s: string, closer: char)
    requires !IsWhitespace(closer)
    requires NoAdjacentWhitespace(s)
    ensures NoAdjacentWhitespace(CollapseCommaBefore(s, closer))
    decreases |s|
  {
    if s != [] {
      var k := CommaMatchEnd(s);
      if s[0] == ',' && k < |s| && s[k] == closer {
        var rest := s[k + 1..];
        var tail := CollapseCommaBefore(rest, closer);
        assert CollapseCommaBefore(s, closer) == [closer] + tail;
        NoAdjacentWhitespaceSuffix(s, k + 1);
        CollapseCommaKeepsSingleSpacing(rest, closer);
        NoAdjacentWhitespaceCons(closer, tail);
      } else {
        var rest := s[1..];
        var tail := CollapseCommaBefore(rest, closer);
        assert CollapseCommaBefore(s, closer) == [s[0]] + tail;
        NoAdjacentWhitespaceSuffix(s, 1);
        CollapseCommaKeepsSingleSpacing(rest, closer);
        if tail != [] && IsWhitespace(s[0]) {
          assert rest[0] == s[1];
          assert !IsWhitespace(s[1]);
        }
        NoAdjacentWhitespaceCons(s[0], tail);
      }
    }
  }

  /** Both comma passes introduce no whitespace other than what was there. */
  lemma {:induction false} CollapseCommaKeepsPlainSpaces(s: string, closer: char)
    requires !IsWhitespace(closer)
    requires OnlyPlainSpaces(s)
    ensures OnlyPlainSpaces(CollapseCommaBefore(s, closer))
    decreases |s|
  {
    if s != [] {
      var k := CommaMatchEnd(s);
      if s[0] == ',' && k < |s| && s[k] == closer {
        var rest := s[k + 1..];
        var tail := CollapseCommaBefore(rest, closer);
        assert CollapseCommaBefore(s, closer) == [closer] + tail;
        OnlyPlainSpacesSuffix(s, k + 1);
        CollapseCommaKeepsPlainSpaces(rest, closer);
        OnlyPlainSpacesCons(closer, tail);
      } else {
        var rest := s[1..];
        var tail := CollapseCommaBefore(rest, closer);
        assert CollapseCommaBefore(s, closer) == [s[0]] + tail;
        OnlyPlainSpacesSuffix(s, 1);
        CollapseCommaKeepsPlainSpaces(rest, closer);
        OnlyPlainSpacesCons(s[0], tail);
      }
    }
  }

  /**
   * `/,\s*C/` matches at index `i` of `s`: a comma, then whitespace, then `C`.
   * As `C` is not whitespace, the whitespace must be the whole run after the comma.
   */
  predicate CommaMatchAt(s: string, i: nat, closer: char) {
    && i < |s|
    && s[i] == ','
    && CommaMatchEnd(s[i..]) < |s| - i
    && s[i + CommaMatchEnd(s[i..])] == closer
  }

  /** `/,\s*C/` matches somewhere in `s`. */
  predicate HasCommaMatch(s: string, closer: char) {
    exists i: nat :: i < |s| && CommaMatchAt(s, i, closer)
  }

  /** A match in `s[1..]` is a match in `s`, one index further on. */
  lemma CommaMatchInTail(s: string, i: nat, closer: char)
    requires s != []
    ensures CommaMatchAt(s[1..], i, closer) <==> CommaMatchAt(s, i + 1, closer)
  {
    if i < |s| - 1 {
      assert s[1..][i..] == s[i + 1..];
    }
  }

  /** A first character that is not a comma is copied, and the pass goes on with the rest. */
  lemma CollapseCommaCopiesOther(c: char, t: string, closer: char)
    requires !IsWhitespace(closer) && c != ','
    ensures CollapseCommaBefore([c] + t, closer) == [c] + CollapseCommaBefore(t, closer)
  {
    assert ([c] + t)[1..] == t;
  }

  /** A comma pass over text on which its pattern never matches returns the text unchanged. */
  lemma {:induction false} CollapseCommaWithoutMatch(s: string, closer: char)
    requires !IsWhitespace(closer)
    requires !HasCommaMatch(s, closer)
    ensures CollapseCommaBefore(s, closer) == s
    decreases |s|
  {
    if s != [] {
      assert s[0..] == s;
      assert !CommaMatchAt(s, 0, closer);
      forall i: nat | i < |s| - 1
        ensures !CommaMatchAt(s[1..], i, closer)
      {
        CommaMatchInTail(s, i, closer);
      }
      CollapseCommaWithoutMatch(s[1..], closer);
      assert s == [s[0]] + s[1..];
    }
  }

  /** A comma pass over text on which its pattern matches somewhere removes at least one character. */
  lemma {:induction false} CollapseCommaShortensMatch(s: string, closer: char)
    requires !IsWhitespace(closer)
    requires HasCommaMatch(s, closer)
    ensures |CollapseCommaBefore(s, closer)| < |s|
    decreases |s|
  {
    var i: nat :| CommaMatchAt(s, i, closer);
    assert s[0..] == s;
    if !CommaMatchAt(s, 0, closer) {
      CommaMatchInTail(s, i - 1, closer);
      CollapseCommaShortensMatch(s[1..], closer);
    }
  }

  /**
   * No match of `/,\s*C/` can straddle the seam between `a` and `b`: `a` ends
   * with neither whitespace nor a comma, or `b` starts with neither whitespace nor `C`.
   */
  predicate SafeSeam(a: string, b: string, closer: char) {
    || a == [] || b == []
    || (!IsWhitespace(a[|a| - 1]) && a[|a| - 1] != ',')
    || (!IsWhitespace(b[0]) && b[0] != closer)
  }

  /** A match in the right part of `a + b` is a match in `b`. */
  lemma CommaMatchInRight(a: string, b: string, j: nat, closer: char)
    ensures CommaMatchAt(a + b, |a| + j, closer) <==> CommaMatchAt(b, j, closer)
  {
    if j < |b| {
      assert (a + b)[|a| + j..] == b[j..];
    }
  }

  /** Across a safe seam, a match starting in the left part of `a + b` is a match in `a`. */
  lemma CommaMatchInLeft(a: string, b: string, i: nat, closer: char)
    requires i < |a| && SafeSeam(a, b, closer)
    ensures CommaMatchAt(a + b, i, closer) ==> CommaMatchAt(a, i, closer)
  {
    if b == [] {
      assert a + b == a;
    } else if a[i] == ',' {
      var s, t := (a + b)[i..], a[i..];
      assert s == t + b;
      assert s[1..] == t[1..] + b;
      LeadingWhitespaceAppend(t[1..], b);
      var k := CommaMatchEnd(s);
      if LeadingWhitespace(t[1..]) == |t[1..]| {
        if t[1..] != [] {
          assert t[1..][|t[1..]| - 1] == a[|a| - 1];
        }
        assert !IsWhitespace(b[0]) && b[0] != closer;
        assert LeadingWhitespace(b) == 0;
        assert k == |t| && s[k] == b[0];
        assert (a + b)[i + k] == s[k];
      } else {
        assert k == CommaMatchEnd(t) && k < |t|;
        assert (a + b)[i + k] == a[i + k] == t[k];
      }
    }
  }

  /** Joining two texts without matches at a safe seam creates none. */
  lemma NoMatchAppend(a: string, b: string, closer: char)
    requires !HasCommaMatch(a, closer) && !HasCommaMatch(b, closer)
    requires SafeSeam(a, b, closer)
    ensures !HasCommaMatch(a + b, closer)
  {
    forall i: nat | i < |a + b|
      ensures !CommaMatchAt(a + b, i, closer)
    {
      if i < |a| {
        CommaMatchInLeft(a, b, i, closer);
      } else {
        CommaMatchInRight(a, b, i - |a|, closer);
      }
    }
  }

  /** A single character is too short for a match. */
  lemma SingleCharNoMatch(c: char, closer: char)
    ensures !HasCommaMatch([c], closer)
  {
    assert [c][0..] == [c];
  }

  /** A comma pass changes the text exactly when its pattern matches somewhere in it. */
  lemma CollapseCommaChangesOnMatch(s: string, closer: char)
    requires !IsWhitespace(closer)
    ensures CollapseCommaBefore(s, closer) == s <==> !HasCommaMatch(s, closer)
  {
    if HasCommaMatch(s, closer) {
      CollapseCommaShortensMatch(s, closer);
    } else {
      CollapseCommaWithoutMatch(s, closer);
    }
  }

  /** Text lacking either commas or the closing character gives its pattern nothing to match. */
  lemma NoMatchWithoutCommaOrCloser(s: string, closer: char)
    requires (forall i :: 0 <= i < |s| ==> s[i] != ',') || (forall i :: 0 <= i < |s| ==> s[i] != closer)
    ensures !HasCommaMatch(s, closer)
  {
  }

  /** Both comma passes remove only commas and whitespace. */
  lemma {:induction false} CollapseCommaKeepsErasure(s: string, closer: char)
    requires !IsWhitespace(closer)
    ensures Erase(CollapseCommaBefore(s, closer), IsSeparator) == Erase(s, IsSeparator)
    decreases |s|
  {
    if s != [] {
      var k := CommaMatchEnd(s);
      var r := CollapseCommaBefore(s, closer);
      if s[0] == ',' && k < |s| && s[k] == closer {
        var rest := s[k + 1..];
        EraseSkipsPrefix(s, k, IsSeparator);
        assert s[k..] == [closer] + rest;
        assert r == [closer] + CollapseCommaBefore(rest, closer);
        CollapseCommaKeepsErasure(rest, closer);
      } else {
        CollapseCommaKeepsErasure(s[1..], closer);
      }
    }
  }

  /** The whole clean-up of the generator's reply: trim, the four replacements in order, trim. */
  function CleanResponse(raw: string): (r: string)
    ensures |r| <= |raw|
  {
    var trimmed := Trim(raw);
    var spaced := ReplaceNewlines(trimmed);
    var collapsed := CollapseWhitespace(spaced);
    var noTrailingCommas := CollapseCommaBefore(collapsed, ']');
    var noDoubleCommas := CollapseCommaBefore(noTrailingCommas, ',');
    Trim(noDoubleCommas)
  }

  /** Plain-space-only text has no line feed. */
  lemma PlainSpacedHasNoNewline(s: string)
    requires OnlyPlainSpaces(s)
    ensures '\n' !in s
  {
    assert IsWhitespace('\n');
  }

  /**
   * The cleaned reply has no line break or other non-space whitespace, no two
   * neighbouring whitespace characters and no whitespace at either end.
   */
  lemma CleanResponseIsSingleSpaced(raw: string)
    ensures OnlyPlainSpaces(CleanResponse(raw))
    ensures '\n' !in CleanResponse(raw)
    ensures NoAdjacentWhitespace(CleanResponse(raw))
    ensures Trimmed(CleanResponse(raw))
  {
    var collapsed := CollapseWhitespace(ReplaceNewlines(Trim(raw)));
    var noTrailingCommas := CollapseCommaBefore(collapsed, ']');
    var noDoubleCommas := CollapseCommaBefore(noTrailingCommas, ',');
    CollapseCommaKeepsSingleSpacing(collapsed, ']');
    CollapseCommaKeepsPlainSpaces(collapsed, ']');
    CollapseCommaKeepsSingleSpacing(noTrailingCommas, ',');
    CollapseCommaKeepsPlainSpaces(noTrailingCommas, ',');
    TrimKeepsShape(noDoubleCommas);
    PlainSpacedHasNoNewline(Trim(noDoubleCommas));
  }

  /** Apart from whitespace and commas the cleaned reply is the raw reply, character for character. */
  lemma CleanResponseKeepsText(raw: string)
    ensures Erase(CleanResponse(raw), IsSeparator) == Erase(raw, IsSeparator)
  {
    var collapsed := CollapseWhitespace(ReplaceNewlines(Trim(raw)));
    var noTrailingCommas := CollapseCommaBefore(collapsed, ']');
    var noDoubleCommas := CollapseCommaBefore(noTrailingCommas, ',');
    TrimKeepsErasure(raw, IsSeparator);
    CollapseCommaKeepsErasure(collapsed, ']');
    CollapseCommaKeepsErasure(noTrailingCommas, ',');
    TrimKeepsErasure(noDoubleCommas, IsSeparator);
  }

  /**
   * A reply that is already trimmed and single-spaced with plain spaces, and
   * on which neither comma pattern matches, comes out of the clean-up as it went in.
   */
  lemma CleanResponseKeepsWellFormed(s: string)
    requires Trimmed(s) && NoAdjacentWhitespace(s) && OnlyPlainSpaces(s)
    requires !HasCommaMatch(s, ']') && !HasCommaMatch(s, ',')
    ensures CleanResponse(s) == s
  {
    TrimOfTrimmed(s);
    ReplaceNewlinesKeepsPlainSpaced(s);
    CollapseWhitespaceKeepsSpaced(s);
    CollapseCommaWithoutMatch(s, ']');
    CollapseCommaWithoutMatch(s, ',');
  }
}
