/**
 * The few JavaScript string operations the converter's helpers are built
 * from, on code-point sequences: `trim`, `split` with a one-character
 * separator, `split(/\s+/)`, and `length` (which counts UTF-16 code units).
 */
module JsString {

  /**
   * ECMAScript WhiteSpace and LineTerminator code points: what `trim`
   * removes and what the regular-expression class `\s` matches.
   */
  predicate IsWhitespace(c: char) {
    ('\U{0009}' <= c <= '\U{000D}') || c == '\U{0020}' || c == '\U{00A0}' || c == '\U{1680}'
    || ('\U{2000}' <= c <= '\U{200A}') || c == '\U{2028}' || c == '\U{2029}' || c == '\U{202F}'
    || c == '\U{205F}' || c == '\U{3000}' || c == '\U{FEFF}'
  }

  ghost predicate AllWhitespace(s: string) {
    forall k :: 0 <= k < |s| ==> IsWhitespace(s[k])
  }

  // ---------------------------------------------------------------------------
  // trim
  // ---------------------------------------------------------------------------

  /** `trimStart`: the suffix left after dropping leading whitespace. */
  function TrimStart(s: string): (r: string)
    ensures |r| <= |s|
    ensures r != [] ==> !IsWhitespace(r[0])
  {
    if s != [] && IsWhitespace(s[0]) then TrimStart(s[1..]) else s
  }

  /** `trimEnd`: the prefix left after dropping trailing whitespace. */
  function TrimEnd(s: string): (r: string)
    ensures |r| <= |s|
    ensures r != [] ==> !IsWhitespace(r[|r| - 1])
  {
    if s != [] && IsWhitespace(s[|s| - 1]) then TrimEnd(s[..|s| - 1]) else s
  }

  /** `trimStart` keeps a suffix. */
  lemma {:induction false} TrimStartSuffix(s: string)
    ensures TrimStart(s) == s[|s| - |TrimStart(s)|..]
  {
    if s != [] && IsWhitespace(s[0]) {
      TrimStartSuffix(s[1..]);
    }
  }

  /** `trimEnd` keeps a prefix. */
  lemma {:induction false} TrimEndPrefix(s: string)
    ensures TrimEnd(s) == s[..|TrimEnd(s)|]
  {
    if s != [] && IsWhitespace(s[|s| - 1]) {
      TrimEndPrefix(s[..|s| - 1]);
    }
  }

  /** `trim`. */
  function Trim(s: string): string {
    TrimEnd(TrimStart(s))
  }

  /** `trimStart` leaves nothing exactly when the text is all whitespace. */
  lemma {:induction false} TrimStartEmpty(s: string)
    ensures TrimStart(s) == [] <==> AllWhitespace(s)
  {
    if s != [] && IsWhitespace(s[0]) {
      TrimStartEmpty(s[1..]);
      assert forall k :: 1 <= k < |s| ==> s[k] == s[1..][k - 1];
    }
  }

  /** `trimEnd` leaves nothing exactly when the text is all whitespace. */
  lemma {:induction false} TrimEndEmpty(s: string)
    ensures TrimEnd(s) == [] <==> AllWhitespace(s)
  {
    if s != [] && IsWhitespace(s[|s| - 1]) {
      TrimEndEmpty(s[..|s| - 1]);
      assert forall k :: 0 <= k < |s| - 1 ==> s[k] == s[..|s| - 1][k];
    }
  }

  /** The trimmed text is empty exactly when the text is all whitespace. */
  lemma {:induction false} TrimEmpty(s: string)
    ensures Trim(s) == [] <==> AllWhitespace(s)
  {
    TrimStartEmpty(s);
    TrimEndEmpty(TrimStart(s));
  }

  /** Trimming twice is trimming once. */
  lemma {:induction false} TrimIdempotent(s: string)
    ensures Trim(Trim(s)) == Trim(s)
  {
    var t := Trim(s);
    TrimEndPrefix(TrimStart(s));
    if t != [] {
      assert t[0] == TrimStart(s)[0];
    }
  }

  /** Leading whitespace in front of `x` makes no difference to `trimStart`. */
  lemma {:induction false} TrimStartPadding(w: string, x: string)
    requires AllWhitespace(w)
    ensures TrimStart(w + x) == TrimStart(x)
  {
    if w != [] {
      assert (w + x)[0] == w[0];
      assert (w + x)[1..] == w[1..] + x;
      TrimStartPadding(w[1..], x);
    } else {
      assert w + x == x;
    }
  }

  /** Trailing whitespace after `x` makes no difference to `trimEnd`. */
  lemma {:induction false} TrimEndPadding(x: string, w: string)
    requires AllWhitespace(w)
    ensures TrimEnd(x + w) == TrimEnd(x)
    decreases |w|
  {
    if w != [] {
      var v := w[..|w| - 1];
      assert (x + w)[|x + w| - 1] == w[|w| - 1];
      assert (x + w)[..|x + w| - 1] == x + v;
      TrimEndPadding(x, v);
    } else {
      assert x + w == x;
    }
  }

  /** A trimmed text keeps its first and last code point under `trimStart` and `trimEnd`. */
  lemma {:induction false} TrimmedEnds(s: string)
    requires Trim(s) == s
    ensures TrimStart(s) == s && TrimEnd(s) == s
  {
    TrimStartSuffix(s);
    assert |TrimStart(s)| == |s|;
    assert s[|s| - |TrimStart(s)|..] == s;
  }

  /** Trimming a trimmed text padded with whitespace on both sides gives the text back. */
  lemma {:induction false} TrimPadded(w1: string, s: string, w2: string)
    requires AllWhitespace(w1) && AllWhitespace(w2) && Trim(s) == s
    ensures Trim(w1 + s + w2) == s
  {
    assert w1 + s + w2 == w1 + (s + w2);
    TrimStartPadding(w1, s + w2);
    TrimmedEnds(s);
    if s == [] {
      assert s + w2 == w2;
      TrimStartEmpty(w2);
    } else {
      assert !IsWhitespace(s[0]);
      assert (s + w2)[0] == s[0];
      assert TrimStart(s + w2) == s + w2;
      TrimEndPadding(s, w2);
    }
  }

  // ---------------------------------------------------------------------------
  // split with a one-character separator, and its inverse
  // ---------------------------------------------------------------------------

  /** Occurrences of `c` in `s`. */
  function Count(s: string, c: char): (n: nat)
    ensures n <= |s|
  {
    if s == [] then 0 else (if s[0] == c then 1 else 0) + Count(s[1..], c)
  }

  /**
   * `s.split(sep)` for a one-character string `sep`: the pieces between
   * consecutive separators, empty ones included.
   */
  function Split(s: string, sep: char): (r: seq<string>)
    ensures |r| >= 1
  {
    if s == [] then [[]]
    else
      var rest := Split(s[1..], sep);
      if s[0] == sep then [[]] + rest
      else [[s[0]] + rest[0]] + rest[1..]
  }

  /** `parts.join(sep)`. */
  function Join(parts: seq<string>, sep: char): string
    requires |parts| >= 1
  {
    if |parts| == 1 then parts[0] else parts[0] + [sep] + Join(parts[1..], sep)
  }

  /** There is one piece more than there are separators. */
  lemma {:induction false} SplitCount(s: string, sep: char)
    ensures |Split(s, sep)| == 1 + Count(s, sep)
  {
    if s != [] {
      SplitCount(s[1..], sep);
    }
  }

  /** No piece contains the separator. */
  lemma {:induction false} SplitPieces(s: string, sep: char)
    ensures forall k :: 0 <= k < |Split(s, sep)| ==> sep !in Split(s, sep)[k]
  {
    if s != [] {
      SplitPieces(s[1..], sep);
    }
  }

  /** Joining the pieces with the separator gives the text back. */
  lemma {:induction false} SplitJoin(s: string, sep: char)
    ensures Join(Split(s, sep), sep) == s
  {
    if s != [] {
      SplitJoin(s[1..], sep);
      var rest := Split(s[1..], sep);
      if s[0] == sep {
        assert ([[]] + rest)[1..] == rest;
      } else if |rest| == 1 {
      } else {
        assert ([[s[0]] + rest[0]] + rest[1..])[1..] == rest[1..];
      }
    }
  }

  /** Splitting pieces without the separator after joining them gives the pieces back. */
  lemma {:induction false} JoinSplit(parts: seq<string>, sep: char)
    requires |parts| >= 1
    requires forall k :: 0 <= k < |parts| ==> sep !in parts[k]
    ensures Split(Join(parts, sep), sep) == parts
    decreases |parts|, |parts[0]|
  {
    if parts[0] == [] {
      if |parts| > 1 {
        JoinSplit(parts[1..], sep);
        assert Join(parts, sep) == [sep] + Join(parts[1..], sep);
        assert ([sep] + Join(parts[1..], sep))[1..] == Join(parts[1..], sep);
        assert parts == [[]] + parts[1..];
      }
    } else {
      var shorter := [parts[0][1..]] + parts[1..];
      assert sep !in shorter[0];
      assert forall k :: 1 <= k < |shorter| ==> shorter[k] == parts[k];
      JoinSplit(shorter, sep);
      assert shorter[1..] == parts[1..];
      assert Join(parts, sep) == [parts[0][0]] + Join(shorter, sep);
      assert Join(parts, sep)[1..] == Join(shorter, sep);
      assert [parts[0][0]] + shorter[0] == parts[0];
      assert parts == [parts[0]] + parts[1..];
    }
  }

  /** `Split` on a single piece: a text without the separator is split into itself. */
  lemma {:induction false} SplitWithoutSeparator(s: string, sep: char)
    requires sep !in s
    ensures Split(s, sep) == [s]
  {
    JoinSplit([s], sep);
  }

  // ---------------------------------------------------------------------------
  // split(/\s+/)
  // ---------------------------------------------------------------------------

  /**
   * `s.split(/\s+/)`: the pieces between maximal runs of whitespace.  A run at
   * either end yields an empty first or last piece.
   */
  function SplitOnWhitespace(s: string): (r: seq<string>)
    ensures |r| >= 1
  {
    if s == [] then [[]]
    else if IsWhitespace(s[0]) then
      if |s| >= 2 && IsWhitespace(s[1]) then SplitOnWhitespace(s[1..])
      else [[]] + SplitOnWhitespace(s[1..])
    else
      var rest := SplitOnWhitespace(s[1..]);
      [[s[0]] + rest[0]] + rest[1..]
  }

  /** The number of maximal whitespace runs, counted at their last code point. */
  function RunEnds(s: string): nat {
    if s == [] then 0
    else (if IsWhitespace(s[0]) && (|s| == 1 || !IsWhitespace(s[1])) then 1 else 0) + RunEnds(s[1..])
  }

  /**
   * The number of words: code points that are not whitespace and start the
   * text (when `afterSpace` holds) or follow whitespace.
   */
  function WordStarts(s: string, afterSpace: bool): nat {
    if s == [] then 0
    else (if !IsWhitespace(s[0]) && afterSpace then 1 else 0) + WordStarts(s[1..], IsWhitespace(s[0]))
  }

  /** Splitting on whitespace yields one piece more than there are runs. */
  lemma {:induction false} SplitOnWhitespaceCount(s: string)
    ensures |SplitOnWhitespace(s)| == 1 + RunEnds(s)
  {
    if s != [] {
      SplitOnWhitespaceCount(s[1..]);
    }
  }

  /** With no whitespace at the end, every whitespace run begins a word. */
  lemma {:induction false} RunEndsStartWords(s: string, afterSpace: bool)
    requires s != [] ==> !IsWhitespace(s[|s| - 1])
    ensures WordStarts(s, afterSpace) == RunEnds(s) + (if s != [] && !IsWhitespace(s[0]) && afterSpace then 1 else 0)
  {
    if s != [] {
      if |s| > 1 {
        assert s[1..][|s| - 2] == s[|s| - 1];
      }
      RunEndsStartWords(s[1..], IsWhitespace(s[0]));
    }
  }

  /** Words of a concatenation. */
  lemma {:induction false} WordStartsConcat(a: string, b: string, afterSpace: bool)
    ensures WordStarts(a + b, afterSpace)
         == WordStarts(a, afterSpace) + WordStarts(b, if a == [] then afterSpace else IsWhitespace(a[|a| - 1]))
  {
    if a == [] {
      assert a + b == b;
    } else {
      var head := if !IsWhitespace(a[0]) && afterSpace then 1 else 0;
      assert (a + b)[0] == a[0];
      assert (a + b)[1..] == a[1..] + b;
      assert WordStarts(a + b, afterSpace) == head + WordStarts(a[1..] + b, IsWhitespace(a[0]));
      WordStartsConcat(a[1..], b, IsWhitespace(a[0]));
      if |a| > 1 {
        assert a[1..][|a| - 2] == a[|a| - 1];
      }
    }
  }

  /** Whitespace holds no word. */
  lemma {:induction false} WordStartsWhitespace(s: string, afterSpace: bool)
    requires AllWhitespace(s)
    ensures WordStarts(s, afterSpace) == 0
  {
    if s != [] {
      assert AllWhitespace(s[1..]) by {
        assert forall k :: 0 <= k < |s| - 1 ==> s[1..][k] == s[k + 1];
      }
      WordStartsWhitespace(s[1..], true);
    }
  }

  /** Leading whitespace holds no word. */
  lemma {:induction false} TrimStartKeepsWords(s: string)
    ensures WordStarts(TrimStart(s), true) == WordStarts(s, true)
  {
    if s != [] && IsWhitespace(s[0]) {
      TrimStartKeepsWords(s[1..]);
    }
  }

  /** Trailing whitespace holds no word. */
  lemma {:induction false} TrimEndKeepsWords(s: string, afterSpace: bool)
    ensures WordStarts(TrimEnd(s), afterSpace) == WordStarts(s, afterSpace)
  {
    if s != [] && IsWhitespace(s[|s| - 1]) {
      var init := s[..|s| - 1];
      TrimEndKeepsWords(init, afterSpace);
      assert s == init + [s[|s| - 1]];
      WordStartsConcat(init, [s[|s| - 1]], afterSpace);
    }
  }

  /** Trimming does not change the number of words. */
  lemma {:induction false} TrimKeepsWords(s: string)
    ensures WordStarts(Trim(s), true) == WordStarts(s, true)
  {
    TrimStartKeepsWords(s);
    TrimEndKeepsWords(TrimStart(s), true);
  }

  /**
   * `t.trim().split(/\s+/).length` for text with something besides
   * whitespace is the number of words.
   */
  lemma {:induction false} SplitTrimmedCountsWords(s: string)
    requires Trim(s) != []
    ensures |SplitOnWhitespace(Trim(s))| == WordStarts(s, true)
  {
    var t := Trim(s);
    TrimEndPrefix(TrimStart(s));
    assert t[0] == TrimStart(s)[0];
    SplitOnWhitespaceCount(t);
    RunEndsStartWords(t, true);
    TrimKeepsWords(s);
  }

  // ---------------------------------------------------------------------------
  // length
  // ---------------------------------------------------------------------------

  /** `length`: UTF-16 code units, two for a code point above U+FFFF. */
  function Utf16Length(s: string): (n: nat)
    ensures |s| <= n <= 2 * |s|
  {
    if s == [] then 0 else (if s[0] as int > 0xFFFF then 2 else 1) + Utf16Length(s[1..])
  }

  /** On text in the Basic Multilingual Plane, `length` counts code points. */
  lemma {:induction false} Utf16LengthBmp(s: string)
    requires forall k :: 0 <= k < |s| ==> s[k] as int <= 0xFFFF
    ensures Utf16Length(s) == |s|
  {
    if s != [] {
      assert forall k :: 0 <= k < |s| - 1 ==> s[1..][k] == s[k + 1];
      Utf16LengthBmp(s[1..]);
    }
  }

  /** `Utf16LengthBmp` as an implication, for use inside expressions. */
  lemma {:induction false} Utf16LengthOfBmp(s: string)
    ensures (forall k :: 0 <= k < |s| ==> s[k] as int <= 0xFFFF) ==> Utf16Length(s) == |s|
  {
    if forall k :: 0 <= k < |s| ==> s[k] as int <= 0xFFFF {
      Utf16LengthBmp(s);
    }
  }
}
