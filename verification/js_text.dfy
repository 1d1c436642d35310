/**
 * The JavaScript string primitives the milestone tracker relies on:
 * the whitespace class shared by `String.prototype.trim` and the regular
 * expression escape `\s`, `trim` itself, and `length` counted in UTF-16
 * code units.
 */
module JsText {

  /**
   * ECMAScript WhiteSpace or LineTerminator: exactly the characters that
   * `trim` strips and `\s` matches (tab, line feed, vertical tab, form feed
   * and carriage return, which are U+0009 to U+000D; space; no-break space;
   * the rest of the Zs category; the line and paragraph separators; and the
   * byte order mark).
   */
  predicate IsWhitespace(c: char): (b: bool)
    ensures b ==> c != ',' && InBasicPlane(c)
  {
    if c <= ' ' then c == ' ' || ('\t' <= c <= '\r')
    else '\U{A0}' <= c && IsWideWhitespace(c)
  }

  /** The whitespace characters above the ASCII range. */
  predicate IsWideWhitespace(c: char) {
    || c == '\U{A0}' || c == '\U{1680}'
    || ('\U{2000}' <= c <= '\U{200A}')
    || c == '\U{2028}' || c == '\U{2029}' || c == '\U{202F}' || c == '\U{205F}'
    || c == '\U{3000}' || c == '\U{FEFF}'
  }

  /** A character of the Basic Multilingual Plane: one UTF-16 code unit. */
  predicate InBasicPlane(c: char) {
    (c as int) < 0x1_0000
  }

  /** Whitespace or a comma: what the response clean-up may remove. */
  predicate IsSeparator(c: char) {
    c == ',' || IsWhitespace(c)
  }

  /** No two neighbouring characters are both whitespace. */
  predicate NoAdjacentWhitespace(s: string) {
    forall i :: 0 < i < |s| ==> !(IsWhitespace(s[i - 1]) && IsWhitespace(s[i]))
  }

  /** Every whitespace character is a plain space (so no line break, no tab). */
  predicate OnlyPlainSpaces(s: string) {
    forall i :: 0 <= i < |s| && IsWhitespace(s[i]) ==> s[i] == ' '
  }

  /** Neither end of the text is whitespace. */
  predicate Trimmed(s: string) {
    s == [] || (!IsWhitespace(s[0]) && !IsWhitespace(s[|s| - 1]))
  }

  lemma NoAdjacentWhitespaceCons(c: char, t: string)
    requires NoAdjacentWhitespace(t)
    requires t == [] || !IsWhitespace(c) || !IsWhitespace(t[0])
    ensures NoAdjacentWhitespace([c] + t)
  {
    var s := [c] + t;
    forall i | 0 < i < |s|
      ensures !(IsWhitespace(s[i - 1]) && IsWhitespace(s[i]))
    {
      if i > 1 {
        assert s[i - 1] == t[i - 2] && s[i] == t[i - 1];
      }
    }
  }

  lemma NoAdjacentWhitespaceSuffix(s: string, k: nat)
    requires NoAdjacentWhitespace(s) && k <= |s|
    ensures NoAdjacentWhitespace(s[k..])
  {
    var t := s[k..];
    forall i | 0 < i < |t|
      ensures !(IsWhitespace(t[i - 1]) && IsWhitespace(t[i]))
    {
      assert t[i - 1] == s[k + i - 1] && t[i] == s[k + i];
    }
  }

  lemma OnlyPlainSpacesCons(c: char, t: string)
    requires OnlyPlainSpaces(t)
    requires IsWhitespace(c) ==> c == ' '
    ensures OnlyPlainSpaces([c] + t)
  {
    var s := [c] + t;
    assert forall i :: 0 < i < |s| ==> s[i] == t[i - 1];
  }

  lemma OnlyPlainSpacesSuffix(s: string, k: nat)
    requires OnlyPlainSpaces(s) && k <= |s|
    ensures OnlyPlainSpaces(s[k..])
  {
    var t := s[k..];
    assert forall i :: 0 <= i < |t| ==> t[i] == s[k + i];
  }

  /** The text with every character satisfying `drop` removed. */
  function Erase(s: string, drop: char -> bool): (r: string)
    ensures |r| <= |s|
    ensures forall i :: 0 <= i < |r| ==> !drop(r[i])
  {
    if s == [] then []
    else (if drop(s[0]) then [] else [s[0]]) + Erase(s[1..], drop)
  }

  lemma {:induction false} EraseAppend(a: string, b: string, drop: char -> bool)
    ensures Erase(a + b, drop) == Erase(a, drop) + Erase(b, drop)
    decreases |a|
  {
    if a != [] {
      assert (a + b)[0] == a[0];
      assert (a + b)[1..] == a[1..] + b;
      EraseAppend(a[1..], b, drop);
    } else {
      assert a + b == b;
    }
  }

  lemma {:induction false} EraseAllDropped(s: string, drop: char -> bool)
    requires forall i :: 0 <= i < |s| ==> drop(s[i])
    ensures Erase(s, drop) == []
    decreases |s|
  {
    if s != [] {
      EraseAllDropped(s[1..], drop);
    }
  }

  /** Erasing text none of whose characters is dropped gives the text back. */
  lemma {:induction false} EraseNoneDropped(s: string, drop: char -> bool)
    requires forall i :: 0 <= i < |s| ==> !drop(s[i])
    ensures Erase(s, drop) == s
    decreases |s|
  {
    if s != [] {
      EraseNoneDropped(s[1..], drop);
      assert s == [s[0]] + s[1..];
    }
  }

  /** Erasing a prefix made only of dropped characters changes nothing. */
  lemma EraseSkipsPrefix(s: string, k: nat, drop: char -> bool)
    requires k <= |s|
    requires forall i :: 0 <= i < k ==> drop(s[i])
    ensures Erase(s[k..], drop) == Erase(s, drop)
  {
    assert s == s[..k] + s[k..];
    EraseAppend(s[..k], s[k..], drop);
    EraseAllDropped(s[..k], drop);
  }

  /** How many whitespace characters open the text. */
  function LeadingWhitespace(s: string): (n: nat)
    ensures n <= |s|
    ensures forall i :: 0 <= i < n ==> IsWhitespace(s[i])
    ensures n < |s| ==> !IsWhitespace(s[n])
  {
    if s == [] || !IsWhitespace(s[0]) then 0 else 1 + LeadingWhitespace(s[1..])
  }

  /** The whitespace run opening `a + b` stops inside `a` unless all of `a` is whitespace. */
  lemma {:induction false} LeadingWhitespaceAppend(a: string, b: string)
    ensures LeadingWhitespace(a) < |a| ==> LeadingWhitespace(a + b) == LeadingWhitespace(a)
    ensures LeadingWhitespace(a) == |a| ==> LeadingWhitespace(a + b) == |a| + LeadingWhitespace(b)
    decreases |a|
  {
    if a == [] {
      assert a + b == b;
    } else {
      assert (a + b)[0] == a[0];
      assert (a + b)[1..] == a[1..] + b;
      if IsWhitespace(a[0]) {
        LeadingWhitespaceAppend(a[1..], b);
      }
    }
  }

  /** How many whitespace characters close the text. */
  function TrailingWhitespace(s: string): (n: nat)
    ensures n <= |s|
    ensures forall i :: |s| - n <= i < |s| ==> IsWhitespace(s[i])
    ensures n < |s| ==> !IsWhitespace(s[|s| - n - 1])
  {
    if s == [] || !IsWhitespace(s[|s| - 1]) then 0
    else 1 + TrailingWhitespace(s[..|s| - 1])
  }

  /**
   * `String.prototype.trim`: the longest slice of `s` that neither starts
   * nor ends with whitespace, everything outside it being whitespace.
   */
  function Trim(s: string): (r: string)
    ensures Trimmed(r)
    ensures LeadingWhitespace(s) + |r| <= |s|
    ensures r == s[LeadingWhitespace(s)..LeadingWhitespace(s) + |r|]
    ensures forall i :: 0 <= i < LeadingWhitespace(s) ==> IsWhitespace(s[i])
    ensures forall i :: LeadingWhitespace(s) + |r| <= i < |s| ==> IsWhitespace(s[i])
    ensures r == [] <==> forall i :: 0 <= i < |s| ==> IsWhitespace(s[i])
  {
    var start := s[LeadingWhitespace(s)..];
    start[..|start| - TrailingWhitespace(start)]
  }

  /** Erasing a suffix made only of dropped characters changes nothing. */
  lemma EraseSkipsSuffix(s: string, k: nat, drop: char -> bool)
    requires k <= |s|
    requires forall i :: k <= i < |s| ==> drop(s[i])
    ensures Erase(s[..k], drop) == Erase(s, drop)
  {
    var head, tail := s[..k], s[k..];
    assert s == head + tail;
    assert forall i :: 0 <= i < |tail| ==> drop(tail[i]) by {
      assert forall i :: 0 <= i < |tail| ==> tail[i] == s[k + i];
    }
    EraseAllDropped(tail, drop);
    EraseAppend(head, tail, drop);
    assert Erase(head, drop) + [] == Erase(head, drop);
  }

  /** Trimming only removes whitespace, so any erasure that drops whitespace sees no change. */
  lemma TrimKeepsErasure(s: string, drop: char -> bool)
    requires forall c :: IsWhitespace(c) ==> drop(c)
    ensures Erase(Trim(s), drop) == Erase(s, drop)
  {
    var a := LeadingWhitespace(s);
    var start := s[a..];
    EraseSkipsPrefix(s, a, drop);
    var r := Trim(s);
    assert r == start[..|r|];
    assert forall i :: |r| <= i < |start| ==> start[i] == s[a + i];
    EraseSkipsSuffix(start, |r|, drop);
  }

  /** Text already free of whitespace at both ends is its own trim. */
  lemma TrimOfTrimmed(s: string)
    requires Trimmed(s)
    ensures Trim(s) == s
  {
    if s != [] {
      assert LeadingWhitespace(s) == 0;
      assert |Trim(s)| == |s| by {
        assert !IsWhitespace(s[|s| - 1]);
      }
    }
  }

  /** Trimming keeps every property that holds of all slices. */
  lemma TrimKeepsShape(s: string)
    ensures NoAdjacentWhitespace(s) ==> NoAdjacentWhitespace(Trim(s))
    ensures OnlyPlainSpaces(s) ==> OnlyPlainSpaces(Trim(s))
  {
    var a := LeadingWhitespace(s);
    var r := Trim(s);
    assert forall i :: 0 <= i < |r| ==> r[i] == s[a + i];
  }

  /** `length` of a JavaScript string: characters outside the Basic Multilingual Plane take two UTF-16 code units. */
  function CodeUnits(s: string): (n: nat)
    ensures n == |s| + |Erase(s, InBasicPlane)|
    ensures |s| <= n <= 2 * |s|
    ensures (forall i :: 0 <= i < |s| ==> InBasicPlane(s[i])) ==> n == |s|
  {
    if s == [] then 0
    else (if InBasicPlane(s[0]) then 1 else 2) + CodeUnits(s[1..])
  }
}
