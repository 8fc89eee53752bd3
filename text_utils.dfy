/**
 * Gujarati text normalisation (shared/text-utils.ts).
 *
 * `normalizeGujaratiText` runs a fixed pipeline over a sequence of code points:
 * platform NFC, a table-driven pair-combination pass, the i-matra relocation
 * pass, a repair pass with one- and two-code-point lookahead, the combination
 * pass again, and NFC again.  NFC is a platform call whose code is not part of
 * this model, so it is a parameter `nfc` of every member that needs it.
 *
 * Each pass is a function on code-point sequences (the specification) and an
 * imperative method that follows the source's loop and is proved equal to it.
 */
module TextUtils {
  import opened Wrappers

  // ---------------------------------------------------------------------------
  // Character classes: inclusive code-point ranges and two named marks
  // ---------------------------------------------------------------------------

  /** અ, the only base of the combination table. */
  const LETTER_A: char := '\U{0A85}'
  /** ્, the halant (virama). */
  const HALANT: char := '\U{0ACD}'
  /** િ, the pre-base vowel sign that the relocation pass moves. */
  const I_MATRA: char := '\U{0ABF}'

  /** ક .. હ */
  predicate IsConsonant(c: char) { '\U{0A95}' <= c <= '\U{0AB9}' }
  /** અ .. ઔ */
  predicate IsVowel(c: char) { '\U{0A85}' <= c <= '\U{0A94}' }
  /** ા .. ્ (the halant is in this range) */
  predicate IsVowelSign(c: char) { '\U{0ABE}' <= c <= '\U{0ACD}' }

  /** The span U+0A85 .. U+0ACD, which holds every class above. */
  predicate InScriptRange(c: char) { '\U{0A85}' <= c <= '\U{0ACD}' }

  // ---------------------------------------------------------------------------
  // The vowel combination table
  // ---------------------------------------------------------------------------

  /** A table entry: the adjacent pair (base, sign) stands for the single letter `vowel`. */
  datatype Combination = Combination(base: char, sign: char, vowel: char)

  /** The ten active entries, in the order of the source's object literal. */
  const VowelCombinations: seq<Combination> := [
    Combination('\U{0A85}', '\U{0ABE}', '\U{0A86}'),  // આ
    // the pair U+0A85 U+0ABF (would give ઇ) is deliberately absent
    Combination('\U{0A85}', '\U{0AC0}', '\U{0A88}'),  // ઈ
    Combination('\U{0A85}', '\U{0AC1}', '\U{0A89}'),  // ઉ
    Combination('\U{0A85}', '\U{0AC2}', '\U{0A8A}'),  // ઊ
    Combination('\U{0A85}', '\U{0AC3}', '\U{0A8B}'),  // ઋ
    Combination('\U{0A85}', '\U{0AC4}', '\U{0A8C}'),  // ઌ
    Combination('\U{0A85}', '\U{0AC7}', '\U{0A8F}'),  // એ
    Combination('\U{0A85}', '\U{0AC8}', '\U{0A90}'),  // ઐ
    Combination('\U{0A85}', '\U{0ACB}', '\U{0A93}'),  // ઓ
    Combination('\U{0A85}', '\U{0ACC}', '\U{0A94}')   // ઔ
  ]

  /** Looking a pair up in a table: the vowel of the first entry whose key is (a, b). */
  function Lookup(table: seq<Combination>, a: char, b: char): (r: Option<char>)
    ensures r.Some? ==> exists k :: 0 <= k < |table| && table[k] == Combination(a, b, r.value)
    ensures r.None? <==> forall k :: 0 <= k < |table| ==> !(table[k].base == a && table[k].sign == b)
  {
    if table == [] then None
    else if table[0].base == a && table[0].sign == b then Some(table[0].vowel)
    else Lookup(table[1..], a, b)
  }

  /** `VOWEL_COMBINATIONS[a + b]`. */
  function Combine(a: char, b: char): Option<char> {
    Lookup(VowelCombinations, a, b)
  }

  /**
   * Every key is U+0A85 followed by a vowel sign and every value an
   * independent vowel other than U+0A85.  Keys and values are therefore
   * disjoint, and no replacement can produce, or be the second half of, a key.
   */
  ghost predicate WellFormed(table: seq<Combination>) {
    forall k :: 0 <= k < |table| ==>
      table[k].base == LETTER_A && IsVowelSign(table[k].sign) &&
      IsVowel(table[k].vowel) && table[k].vowel != LETTER_A
  }

  lemma {:induction false} VowelCombinationsWellFormed()
    ensures WellFormed(VowelCombinations)
  {
  }

  lemma {:induction false} LookupShape(table: seq<Combination>, a: char, b: char)
    requires WellFormed(table)
    ensures Lookup(table, a, b).Some? ==>
      a == LETTER_A && IsVowelSign(b) &&
      IsVowel(Lookup(table, a, b).value) && Lookup(table, a, b).value != LETTER_A
  {
  }

  lemma {:induction false} CombineShape(a: char, b: char)
    ensures Combine(a, b).Some? ==>
      a == LETTER_A && IsVowelSign(b) && IsVowel(Combine(a, b).value) && Combine(a, b).value != LETTER_A
  {
    VowelCombinationsWellFormed();
    LookupShape(VowelCombinations, a, b);
  }

  /** No two entries share a key, as in the source's object literal. */
  ghost predicate DistinctKeys(table: seq<Combination>) {
    forall i, j :: 0 <= i < j < |table| ==> table[i].sign != table[j].sign || table[i].base != table[j].base
  }

  lemma {:induction false} VowelCombinationsDistinct()
    ensures DistinctKeys(VowelCombinations)
  {
  }

  /** With distinct keys, looking up an entry's key yields that entry's vowel. */
  lemma {:induction false} LookupEntry(table: seq<Combination>, k: nat)
    requires DistinctKeys(table) && k < |table|
    ensures Lookup(table, table[k].base, table[k].sign) == Some(table[k].vowel)
  {
    if k > 0 {
      assert DistinctKeys(table[1..]);
      assert table[1..][k - 1] == table[k];
      LookupEntry(table[1..], k - 1);
    }
  }

  /** U+0A85 followed by the i-matra is not a key: that entry is switched off. */
  lemma {:induction false} IMatraPairNotCombined()
    ensures Combine(LETTER_A, I_MATRA) == None
  {
    assert forall k :: 0 <= k < |VowelCombinations| ==> VowelCombinations[k].sign != I_MATRA;
  }

  // ---------------------------------------------------------------------------
  // Pair combination
  // ---------------------------------------------------------------------------

  /**
   * `s.replaceAll(a + b, v)` for a pattern of two code points and a
   * replacement of one: occurrences are found left to right and never overlap.
   */
  function ReplacePair(s: string, a: char, b: char, v: char): (r: string)
    ensures |r| <= |s|
  {
    if |s| < 2 then s
    else if s[0] == a && s[1] == b then [v] + ReplacePair(s[2..], a, b, v)
    else [s[0]] + ReplacePair(s[1..], a, b, v)
  }

  /** Two adjacent code points of `s` form the pattern (a, b). */
  predicate HasPairAt(s: string, i: int, a: char, b: char) {
    0 <= i < |s| - 1 && s[i] == a && s[i + 1] == b
  }

  /** When the replacement is neither half of the pattern, no occurrence survives. */
  lemma {:induction false} ReplacePairRemovesAll(s: string, a: char, b: char, v: char)
    requires v != a && v != b
    ensures forall i :: !HasPairAt(ReplacePair(s, a, b, v), i, a, b)
    decreases |s|
  {
    var r := ReplacePair(s, a, b, v);
    if |s| < 2 {
    } else if s[0] == a && s[1] == b {
      var rest := ReplacePair(s[2..], a, b, v);
      ReplacePairRemovesAll(s[2..], a, b, v);
      assert r == [v] + rest;
      forall i ensures !HasPairAt(r, i, a, b) {
        if i > 0 { assert !HasPairAt(rest, i - 1, a, b); }
      }
    } else {
      var rest := ReplacePair(s[1..], a, b, v);
      ReplacePairRemovesAll(s[1..], a, b, v);
      assert r == [s[0]] + rest;
      forall i ensures !HasPairAt(r, i, a, b) {
        if i > 0 {
          assert !HasPairAt(rest, i - 1, a, b);
        } else if |rest| > 0 && s[0] == a {
          assert s[1] != b;
          assert rest[0] == s[1] || rest[0] == v;
        }
      }
    }
  }

  /**
   * The single left-to-right combination scan: at each position a pair that
   * is a key of `table` becomes its vowel and the scan moves on by two;
   * otherwise the code point is copied and the scan moves on by one.
   */
  function CombineWith(s: string, table: seq<Combination>): (r: string)
    ensures |r| <= |s|
  {
    if |s| < 2 then s
    else match Lookup(table, s[0], s[1])
      case Some(v) => [v] + CombineWith(s[2..], table)
      case None => [s[0]] + CombineWith(s[1..], table)
  }

  /** The combination pass with the source's table. */
  function CombinePairs(s: string): string {
    CombineWith(s, VowelCombinations)
  }

  /** Number of positions where two adjacent code points form a key. */
  function KeyCount(s: string, table: seq<Combination>): nat {
    if |s| < 2 then 0
    else (if Lookup(table, s[0], s[1]).Some? then 1 else 0) + KeyCount(s[1..], table)
  }

  /** With an empty table the combination pass copies its input. */
  lemma {:induction false} CombineEmptyTable(s: string)
    ensures CombineWith(s, []) == s
  {
    if s != [] {
      CombineEmptyTable(s[1..]);
    }
  }

  /** A code point other than U+0A85 at the front is copied and does not affect the rest. */
  lemma {:induction false} CombineCons(c: char, t: string, table: seq<Combination>)
    requires WellFormed(table) && c != LETTER_A
    ensures CombineWith([c] + t, table) == [c] + CombineWith(t, table)
  {
    if |t| > 0 {
      LookupShape(table, c, t[0]);
      assert ([c] + t)[1..] == t;
    }
  }

  /** The first output code point is the first input code point or a combined vowel. */
  lemma {:induction false} CombineHead(s: string, table: seq<Combination>)
    requires WellFormed(table) && |s| > 0
    ensures |CombineWith(s, table)| > 0
    ensures var h := CombineWith(s, table)[0];
      h == s[0] || (!IsVowelSign(h) && h != LETTER_A)
  {
    if |s| >= 2 {
      LookupShape(table, s[0], s[1]);
    }
  }

  /**
   * One `replaceAll` with the first entry, followed by the scan with the
   * remaining entries, is the scan with the whole table.
   */
  lemma {:induction false} ReplaceThenCombine(s: string, table: seq<Combination>)
    requires WellFormed(table) && |table| > 0
    ensures CombineWith(ReplacePair(s, table[0].base, table[0].sign, table[0].vowel), table[1..])
         == CombineWith(s, table)
    decreases |s|
  {
    var e, rest := table[0], table[1..];
    assert WellFormed(rest);
    var a, b, v := e.base, e.sign, e.vowel;
    if |s| < 2 {
    } else if s[0] == a && s[1] == b {
      ReplaceThenCombine(s[2..], table);
      CombineCons(v, ReplacePair(s[2..], a, b, v), rest);
    } else if s[0] != LETTER_A {
      ReplaceThenCombine(s[1..], table);
      CombineCons(s[0], ReplacePair(s[1..], a, b, v), rest);
      LookupShape(table, s[0], s[1]);
    } else {
      assert Lookup(table, s[0], s[1]) == Lookup(rest, s[0], s[1]);
      var tail := ReplacePair(s[1..], a, b, v);
      assert ReplacePair(s, a, b, v) == [s[0]] + tail;
      match Lookup(rest, s[0], s[1])
      case Some(w) =>
        LookupShape(rest, s[0], s[1]);
        assert s[1] != a;
        assert tail == [s[1]] + ReplacePair(s[2..], a, b, v);
        ReplaceThenCombine(s[2..], table);
        assert ([s[0]] + tail)[2..] == ReplacePair(s[2..], a, b, v);
      case None =>
        ReplaceThenCombine(s[1..], table);
        assert |tail| > 0 && (tail[0] == s[1] || tail[0] == v);
        LookupShape(rest, s[0], tail[0]);
        assert ([s[0]] + tail)[1..] == tail;
    }
  }

  /** No two adjacent code points of `s` form a key of `table`. */
  ghost predicate NoKeyIn(s: string, table: seq<Combination>) {
    forall i :: 0 <= i < |s| - 1 ==> Lookup(table, s[i], s[i + 1]).None?
  }

  /** No key of the table is left anywhere in the output of the scan. */
  lemma {:induction false} CombineLeavesNoKey(s: string, table: seq<Combination>)
    requires WellFormed(table)
    ensures NoKeyIn(CombineWith(s, table), table)
    decreases |s|
  {
    var r := CombineWith(s, table);
    if |s| < 2 {
    } else {
      match Lookup(table, s[0], s[1])
      case Some(v) =>
        var rest := CombineWith(s[2..], table);
        CombineLeavesNoKey(s[2..], table);
        LookupShape(table, s[0], s[1]);
        assert r == [v] + rest;
        forall i | 0 <= i < |r| - 1 ensures Lookup(table, r[i], r[i + 1]).None? {
          if i == 0 {
            assert r[0] == v && v != LETTER_A;
            LookupShape(table, v, r[1]);
          } else {
            assert r[i] == rest[i - 1] && r[i + 1] == rest[i];
            assert Lookup(table, rest[i - 1], rest[i]).None?;
          }
        }
      case None =>
        var rest := CombineWith(s[1..], table);
        CombineLeavesNoKey(s[1..], table);
        CombineHead(s[1..], table);
        assert r == [s[0]] + rest;
        forall i | 0 <= i < |r| - 1 ensures Lookup(table, r[i], r[i + 1]).None? {
          if i == 0 {
            assert r[1] == rest[0] && s[1..][0] == s[1];
            LookupShape(table, s[0], r[1]);
          } else {
            assert r[i] == rest[i - 1] && r[i + 1] == rest[i];
            assert Lookup(table, rest[i - 1], rest[i]).None?;
          }
        }
    }
  }

  /** Every key occurrence is combined: each shortens the text by exactly one. */
  lemma {:induction false} CombineCount(s: string, table: seq<Combination>)
    requires WellFormed(table)
    ensures |CombineWith(s, table)| + KeyCount(s, table) == |s|
    decreases |s|
  {
    if |s| < 2 {
    } else {
      match Lookup(table, s[0], s[1])
      case Some(v) =>
        CombineCount(s[2..], table);
        LookupShape(table, s[0], s[1]);
        if |s| >= 3 {
          LookupShape(table, s[1], s[2]);
          assert s[1..][1..] == s[2..];
        }
      case None =>
        CombineCount(s[1..], table);
    }
  }

  /** No pair that the table combines involves `c`, on either side. */
  ghost predicate Untouched(table: seq<Combination>, c: char) {
    forall a, b :: Lookup(table, a, b).Some? ==> a != c && b != c && Lookup(table, a, b).value != c
  }

  /** A code point that no combined pair involves occurs as often after the scan as before. */
  lemma {:induction false} CombineKeepsOthers(s: string, table: seq<Combination>, c: char)
    requires Untouched(table, c)
    ensures multiset(CombineWith(s, table))[c] == multiset(s)[c]
    decreases |s|
  {
    if |s| >= 2 {
      match Lookup(table, s[0], s[1])
      case Some(v) =>
        var rest := CombineWith(s[2..], table);
        assert CombineWith(s, table) == [v] + rest;
        CombineKeepsOthers(s[2..], table, c);
        assert s == [s[0], s[1]] + s[2..];
        CountStep([v], rest, [s[0], s[1]], s[2..], c);
      case None =>
        var rest := CombineWith(s[1..], table);
        assert CombineWith(s, table) == [s[0]] + rest;
        CombineKeepsOthers(s[1..], table, c);
        assert s == [s[0]] + s[1..];
        CountStep([s[0]], rest, [s[0]], s[1..], c);
    }
  }

  /** Equal counts of `c` are kept when prefixes of equal count are put in front. */
  lemma {:induction false} CountStep(x: string, r: string, y: string, t: string, c: char)
    requires multiset(x)[c] == multiset(y)[c] && multiset(r)[c] == multiset(t)[c]
    ensures multiset(x + r)[c] == multiset(y + t)[c]
  {
  }

  /** The combination pass never removes or adds an i-matra. */
  lemma {:induction false} IMatraSurvivesCombination(s: string)
    ensures multiset(CombinePairs(s))[I_MATRA] == multiset(s)[I_MATRA]
  {
    VowelCombinationsWellFormed();
    IMatraPairNotCombined();
    IMatraUntouched(VowelCombinations);
    CombineKeepsOthers(s, VowelCombinations, I_MATRA);
  }

  /** A well-formed table without the pair (U+0A85, i-matra) never touches an i-matra. */
  lemma {:induction false} IMatraUntouched(table: seq<Combination>)
    requires WellFormed(table) && Lookup(table, LETTER_A, I_MATRA) == None
    ensures Untouched(table, I_MATRA)
  {
    forall a, b ensures Lookup(table, a, b).Some? ==> a != I_MATRA && b != I_MATRA && Lookup(table, a, b).value != I_MATRA {
      LookupShape(table, a, b);
    }
  }

  /** Without U+0A85 there is nothing to combine. */
  lemma {:induction false} CombineIdentityWithoutA(s: string, table: seq<Combination>)
    requires WellFormed(table) && LETTER_A !in s
    ensures CombineWith(s, table) == s
    decreases |s|
  {
    if |s| >= 2 {
      LookupShape(table, s[0], s[1]);
      assert LETTER_A !in s[1..];
      CombineIdentityWithoutA(s[1..], table);
    }
  }

  /** A suffix of a well-formed table is well formed. */
  lemma {:induction false} WellFormedSuffix(table: seq<Combination>, e: nat)
    requires WellFormed(table) && e <= |table|
    ensures WellFormed(table[e..])
  {
    assert forall k :: 0 <= k < |table| - e ==> table[e..][k] == table[e + k];
  }

  /**
   * The combination pass as the source runs it (text-utils.ts:30-32, 132-134):
   * one `replaceAll` per table entry, in table order.
   */
  method CombineVowelPairs(text: string) returns (normalized: string)
    ensures normalized == CombinePairs(text)
  {
    VowelCombinationsWellFormed();
    normalized := text;
    for e := 0 to |VowelCombinations|
      invariant CombineWith(normalized, VowelCombinations[e..]) == CombinePairs(text)
    {
      var entry := VowelCombinations[e];
      WellFormedSuffix(VowelCombinations, e);
      ReplaceThenCombine(normalized, VowelCombinations[e..]);
      assert VowelCombinations[e..][1..] == VowelCombinations[e + 1..];
      normalized := ReplacePair(normalized, entry.base, entry.sign, entry.vowel);
    }
    assert VowelCombinations[|VowelCombinations|..] == [];
    CombineEmptyTable(normalized);
  }

  // ---------------------------------------------------------------------------
  // I-matra relocation
  // ---------------------------------------------------------------------------

  /** `j` is the index of the first consonant of `t`. */
  ghost predicate IsFirstConsonant(t: string, j: nat) {
    j < |t| && IsConsonant(t[j]) && forall k :: 0 <= k < j ==> !IsConsonant(t[k])
  }

  ghost predicate NoConsonant(t: string) {
    forall k :: 0 <= k < |t| ==> !IsConsonant(t[k])
  }

  /** The forward search for a consonant (the inner loop at text-utils.ts:44-57). */
  function FirstConsonant(t: string): (r: Option<nat>)
    ensures r.Some? ==> r.value < |t|
  {
    if t == [] then None
    else if IsConsonant(t[0]) then Some(0)
    else match FirstConsonant(t[1..])
      case Some(j) => Some(j + 1)
      case None => None
  }

  /** The search finds the first consonant, and finds nothing exactly when there is none. */
  lemma {:induction false} FirstConsonantSpec(t: string)
    ensures FirstConsonant(t).Some? ==> IsFirstConsonant(t, FirstConsonant(t).value)
    ensures FirstConsonant(t).None? <==> NoConsonant(t)
    decreases |t|
  {
    if t != [] && !IsConsonant(t[0]) {
      FirstConsonantSpec(t[1..]);
      if FirstConsonant(t[1..]).None? {
        assert forall k :: 1 <= k < |t| ==> t[k] == t[1..][k - 1];
      } else {
        var j := FirstConsonant(t[1..]).value;
        assert forall k :: 1 <= k <= j + 1 ==> t[k] == t[1..][k - 1];
      }
      if NoConsonant(t) {
        assert forall k :: 0 <= k < |t| - 1 ==> t[1..][k] == t[k + 1];
      }
    }
  }

  lemma {:induction false} FirstConsonantIs(t: string, j: nat)
    requires IsFirstConsonant(t, j)
    ensures FirstConsonant(t) == Some(j)
    decreases |t|
  {
    if j > 0 {
      assert IsFirstConsonant(t[1..], j - 1) by {
        assert forall k :: 0 <= k < j - 1 ==> t[1..][k] == t[k + 1];
      }
      FirstConsonantIs(t[1..], j - 1);
    }
  }

  /**
   * The relocation pass.  An i-matra followed, somewhere later, by a consonant
   * is emitted right after the first such consonant, everything in between
   * copied in order (other i-matras included); an i-matra with no later
   * consonant stays where it is.
   */
  function Relocate(s: string): string
    decreases |s|
  {
    if s == [] then []
    else if s[0] != I_MATRA then [s[0]] + Relocate(s[1..])
    else match FirstConsonant(s[1..])
      case None => [I_MATRA] + Relocate(s[1..])
      case Some(j) => s[1..j + 2] + [I_MATRA] + Relocate(s[j + 2..])
  }

  /** The relocation pass only reorders: same length, same code points. */
  lemma {:induction false} RelocatePermutes(s: string)
    ensures |Relocate(s)| == |s|
    ensures multiset(Relocate(s)) == multiset(s)
    decreases |s|
  {
    if s == [] {
    } else if s[0] != I_MATRA {
      RelocatePermutes(s[1..]);
      assert s == [s[0]] + s[1..];
    } else {
      match FirstConsonant(s[1..])
      case None =>
        RelocatePermutes(s[1..]);
        assert s == [s[0]] + s[1..];
      case Some(j) =>
        RelocatePermutes(s[j + 2..]);
        assert s == [s[0]] + s[1..j + 2] + s[j + 2..];
    }
  }

  /** `s` with every i-matra deleted. */
  function WithoutIMatra(s: string): string {
    if s == [] then [] else (if s[0] == I_MATRA then [] else [s[0]]) + WithoutIMatra(s[1..])
  }

  lemma {:induction false} WithoutIMatraConcat(a: string, b: string)
    ensures WithoutIMatra(a + b) == WithoutIMatra(a) + WithoutIMatra(b)
    decreases |a|
  {
    if a == [] {
      assert a + b == b;
    } else {
      assert (a + b)[0] == a[0];
      assert (a + b)[1..] == a[1..] + b;
      WithoutIMatraConcat(a[1..], b);
    }
  }

  /** Apart from the i-matras, every code point keeps its relative order. */
  lemma {:induction false} RelocateKeepsOrder(s: string)
    ensures WithoutIMatra(Relocate(s)) == WithoutIMatra(s)
    decreases |s|
  {
    if s == [] {
    } else if s[0] == I_MATRA && FirstConsonant(s[1..]).Some? {
      var j := FirstConsonant(s[1..]).value;
      RelocateKeepsOrder(s[j + 2..]);
      KeepsOrderMoved(s, j);
    } else {
      RelocateKeepsOrder(s[1..]);
      KeepsOrderCopied(s);
    }
  }

  /** The step of `RelocateKeepsOrder` where the head is copied. */
  lemma {:induction false} KeepsOrderCopied(s: string)
    requires s != [] && (s[0] != I_MATRA || FirstConsonant(s[1..]).None?)
    requires WithoutIMatra(Relocate(s[1..])) == WithoutIMatra(s[1..])
    ensures WithoutIMatra(Relocate(s)) == WithoutIMatra(s)
  {
    assert Relocate(s) == [s[0]] + Relocate(s[1..]);
    WithoutIMatraConcat([s[0]], Relocate(s[1..]));
    assert s == [s[0]] + s[1..];
    WithoutIMatraConcat([s[0]], s[1..]);
  }

  /** The step of `RelocateKeepsOrder` where the head i-matra is moved past the consonant at `j + 1`. */
  lemma {:induction false} KeepsOrderMoved(s: string, j: nat)
    requires s != [] && s[0] == I_MATRA && FirstConsonant(s[1..]) == Some(j)
    requires WithoutIMatra(Relocate(s[j + 2..])) == WithoutIMatra(s[j + 2..])
    ensures WithoutIMatra(Relocate(s)) == WithoutIMatra(s)
  {
    RelocateUnfoldMoved(s, j);
    var p, q := s[1..j + 2], s[j + 2..];
    assert s == [I_MATRA] + (p + q);
    WithoutIMatraMoved(p, q, Relocate(q));
  }

  /** Moving an i-matra from the front of `p + q` to the end of `p` keeps everything else in order. */
  lemma {:induction false} WithoutIMatraMoved(p: string, q: string, r: string)
    requires WithoutIMatra(r) == WithoutIMatra(q)
    ensures WithoutIMatra((p + [I_MATRA]) + r) == WithoutIMatra([I_MATRA] + (p + q))
  {
    assert WithoutIMatra([I_MATRA]) == [];
    WithoutIMatraConcat(p + [I_MATRA], r);
    WithoutIMatraConcat(p, [I_MATRA]);
    WithoutIMatraConcat([I_MATRA], p + q);
    WithoutIMatraConcat(p, q);
  }

  /** One unfolding of `Relocate` at an i-matra whose first later consonant is at `j + 1`. */
  lemma {:induction false} RelocateUnfoldMoved(s: string, j: nat)
    requires s != [] && s[0] == I_MATRA && FirstConsonant(s[1..]) == Some(j)
    ensures j + 2 <= |s|
    ensures Relocate(s) == (s[1..j + 2] + [I_MATRA]) + Relocate(s[j + 2..])
  {
  }

  /** An i-matra is emitted just after the first consonant that follows it. */
  lemma {:induction false} RelocateToFirstConsonant(t: string, j: nat)
    requires IsFirstConsonant(t, j)
    ensures Relocate([I_MATRA] + t) == t[..j + 1] + [I_MATRA] + Relocate(t[j + 1..])
  {
    var s := [I_MATRA] + t;
    assert s[0] == I_MATRA;
    assert s[1..] == t;
    FirstConsonantIs(t, j);
    assert s[1..j + 2] == t[..j + 1];
    assert s[j + 2..] == t[j + 1..];
  }

  /** Text without consonants is left alone. */
  lemma {:induction false} RelocateWithoutConsonant(t: string)
    requires NoConsonant(t)
    ensures Relocate(t) == t
    decreases |t|
  {
    if t != [] {
      assert NoConsonant(t[1..]) by {
        assert forall k :: 0 <= k < |t| - 1 ==> t[1..][k] == t[k + 1];
      }
      RelocateWithoutConsonant(t[1..]);
      FirstConsonantSpec(t[1..]);
    }
  }

  /** An i-matra with no consonant after it stays in place, and so does the rest. */
  lemma {:induction false} RelocateStaysWithoutConsonant(t: string)
    requires NoConsonant(t)
    ensures Relocate([I_MATRA] + t) == [I_MATRA] + t
  {
    assert NoConsonant([I_MATRA] + t) by {
      assert forall k :: 1 <= k < |t| + 1 ==> ([I_MATRA] + t)[k] == t[k - 1];
    }
    RelocateWithoutConsonant([I_MATRA] + t);
  }

  /** Without an i-matra the pass is the identity. */
  lemma {:induction false} RelocateIdentityWithoutIMatra(s: string)
    requires I_MATRA !in s
    ensures Relocate(s) == s
    decreases |s|
  {
    if s != [] {
      assert I_MATRA !in s[1..];
      RelocateIdentityWithoutIMatra(s[1..]);
    }
  }

  // One step of the relocation scan at index i, for the loop below.

  lemma {:induction false} RelocateStepFound(s: string, i: nat, j: nat)
    requires i < j < |s| && s[i] == I_MATRA && IsConsonant(s[j])
    requires forall k :: i < k < j ==> !IsConsonant(s[k])
    ensures Relocate(s[i..]) == s[i + 1..j + 1] + [I_MATRA] + Relocate(s[j + 1..])
  {
    var p, q := s[i + 1..j + 1], s[j + 1..];
    assert s[i..] == [I_MATRA] + (p + q);
    assert IsFirstConsonant(p, |p| - 1) by {
      assert forall k :: 0 <= k < |p| ==> p[k] == s[i + 1 + k];
    }
    RelocateSplit(p, q);
  }

  /** An i-matra before `p + q`, where `p` ends at its first consonant, moves to the end of `p`. */
  lemma {:induction false} RelocateSplit(p: string, q: string)
    requires p != [] && IsFirstConsonant(p, |p| - 1)
    ensures Relocate([I_MATRA] + (p + q)) == p + [I_MATRA] + Relocate(q)
  {
    var t := p + q;
    assert IsFirstConsonant(t, |p| - 1) by {
      assert forall k :: 0 <= k < |p| ==> t[k] == p[k];
    }
    RelocateToFirstConsonant(t, |p| - 1);
    assert t[..|p|] == p && t[|p|..] == q;
  }

  lemma {:induction false} RelocateStepNotFound(s: string, i: nat)
    requires i < |s| && s[i] == I_MATRA
    requires forall k :: i < k < |s| ==> !IsConsonant(s[k])
    ensures Relocate(s[i..]) == [I_MATRA] + Relocate(s[i + 1..])
  {
    var t := s[i + 1..];
    assert s[i..] == [I_MATRA] + t;
    assert NoConsonant(t) by {
      assert forall k :: 0 <= k < |t| ==> t[k] == s[i + 1 + k];
    }
    RelocateStaysWithoutConsonant(t);
    RelocateWithoutConsonant(t);
  }

  lemma {:induction false} RelocateStepOther(s: string, i: nat)
    requires i < |s| && s[i] != I_MATRA
    ensures Relocate(s[i..]) == [s[i]] + Relocate(s[i + 1..])
  {
    assert s[i..][1..] == s[i + 1..];
  }

  /**
   * The i-matra branch of the relocation loop (text-utils.ts:41-60): search
   * forward from `i + 1` for a consonant; if one is found at `j`, emit
   * `chars1[i + 1..j + 1]` and then the i-matra, and continue after `j`;
   * otherwise emit the i-matra and continue after `i`.
   */
  method MoveIMatra(chars1: string, i: nat) returns (emitted: string, next: nat)
    requires i < |chars1| && chars1[i] == I_MATRA
    ensures i < next <= |chars1|
    ensures emitted + Relocate(chars1[next..]) == Relocate(chars1[i..])
  {
    var c := chars1[i];
    emitted := [];
    next := i + 1;
    var foundConsonant := false;
    var j := i + 1;
    while j < |chars1|
      invariant i + 1 <= j <= |chars1|
      invariant emitted == [] && next == i + 1 && !foundConsonant
      invariant forall k :: i < k < j ==> !IsConsonant(chars1[k])
    {
      if IsConsonant(chars1[j]) {
        for k := i + 1 to j + 1
          invariant emitted == chars1[i + 1..k]
        {
          emitted := emitted + [chars1[k]];
        }
        emitted := emitted + [c];
        RelocateStepFound(chars1, i, j);
        next := j + 1;
        foundConsonant := true;
        break;
      }
      j := j + 1;
    }
    if !foundConsonant {
      RelocateStepNotFound(chars1, i);
      emitted := emitted + [c];
    }
  }

  /** The accumulator step of a scan: emitting `e` in front of the rest `r` of `rest` keeps the whole. */
  lemma {:induction false} AppendStep(done: string, e: string, r: string, rest: string, whole: string)
    requires done + rest == whole && e + r == rest
    ensures (done + e) + r == whole
  {
  }

  /** The relocation pass as the source runs it (text-utils.ts:35-64). */
  method RelocateIMatra(chars1: string) returns (firstPass: string)
    ensures firstPass == Relocate(chars1)
  {
    firstPass := [];
    var i := 0;
    assert chars1[0..] == chars1;
    while i < |chars1|
      invariant 0 <= i <= |chars1|
      invariant firstPass + Relocate(chars1[i..]) == Relocate(chars1)
    {
      var c := chars1[i];
      if c == I_MATRA {
        var emitted, next := MoveIMatra(chars1, i);
        AppendStep(firstPass, emitted, Relocate(chars1[next..]), Relocate(chars1[i..]), Relocate(chars1));
        firstPass := firstPass + emitted;
        i := next;
      } else {
        RelocateStepOther(chars1, i);
        AppendStep(firstPass, [c], Relocate(chars1[i + 1..]), Relocate(chars1[i..]), Relocate(chars1));
        firstPass := firstPass + [c];
        i := i + 1;
      }
    }
  }

  // ---------------------------------------------------------------------------
  // Sequence repair
  // ---------------------------------------------------------------------------

  /** A consonant, a halant and a vowel sign other than the halant. */
  predicate HalantThenSign(a: char, b: char, c: char)
  {
    IsConsonant(a) && b == HALANT && IsVowelSign(c) && c != HALANT
  }

  /** The adjacent pairs the repair pass rewrites or keeps together as a unit. */
  predicate Pairs(a: char, b: char)
  {
    Combine(a, b).Some?
    || (a == I_MATRA && IsConsonant(b))
    || (IsConsonant(a) && IsVowelSign(b))
    || (IsVowel(a) && IsVowelSign(b))
  }

  /** What the repair pass emits for such a pair, branches in the source's order. */
  function RepairPair(a: char, b: char): (r: string)
    requires Pairs(a, b)
    ensures 1 <= |r| <= 2
  {
    if Combine(a, b).Some? then [Combine(a, b).value]
    else if a == I_MATRA && IsConsonant(b) then [b, a]
    else if IsConsonant(a) && IsVowelSign(b) then [a, b]
    else match Combine(a, b) case Some(v) => [v] case None => [a, b]
  }

  /**
   * The repair pass, one left-to-right scan with lookahead, branches tried in
   * the source's order:
   *  - consonant, halant, vowel sign other than the halant: only the consonant;
   *  - a pair that is a table key: its vowel;
   *  - i-matra then consonant: consonant then i-matra;
   *  - consonant then vowel sign: both, unchanged;
   *  - independent vowel then vowel sign: the table's vowel if the pair is a
   *    key (it never is by this point, see the first pair branch), else both;
   *  - anything else: copied.  (The source's branch for a vowel sign after
   *    some earlier code point emits it unchanged on both of its arms, so it is
   *    this case.)
   */
  function Repair(s: string): (r: string)
    ensures |r| <= |s|
    decreases |s|
  {
    if s == [] then []
    else if |s| >= 3 && HalantThenSign(s[0], s[1], s[2]) then [s[0]] + Repair(s[3..])
    else if |s| >= 2 && Pairs(s[0], s[1]) then RepairPair(s[0], s[1]) + Repair(s[2..])
    else [s[0]] + Repair(s[1..])
  }

  /** A vowel-killed consonant that is then given a vowel sign reduces to the plain consonant. */
  lemma {:induction false} RepairCollapsesHalant(c: char, m: char, t: string)
    requires IsConsonant(c) && IsVowelSign(m) && m != HALANT
    ensures Repair([c, HALANT, m] + t) == [c] + Repair(t)
  {
    assert ([c, HALANT, m] + t)[3..] == t;
  }

  /** An i-matra directly before a consonant is emitted after it. */
  lemma {:induction false} RepairSwapsIMatra(c: char, t: string)
    requires IsConsonant(c)
    ensures Repair([I_MATRA, c] + t) == [c, I_MATRA] + Repair(t)
  {
    CombineShape(I_MATRA, c);
    assert ([I_MATRA, c] + t)[2..] == t;
  }

  /** Away from U+0A85 a rewritten pair is only ever reordered. */
  lemma {:induction false} RepairPairPermutes(a: char, b: char)
    requires Pairs(a, b) && a != LETTER_A
    ensures multiset(RepairPair(a, b)) == multiset{a, b}
  {
    CombineShape(a, b);
  }

  /**
   * Whatever the text, a code point that is neither an independent vowel nor
   * a vowel sign (a consonant, a digit, Latin, anything outside the script)
   * is never dropped, merged or duplicated: only the halant collapse, which
   * drops a halant and a sign, and the table combinations, which merge U+0A85
   * and a sign into a vowel, change what the text is made of.
   */
  lemma {:induction false} RepairKeepsOthers(s: string, c: char)
    requires !IsVowel(c) && !IsVowelSign(c)
    ensures multiset(Repair(s))[c] == multiset(s)[c]
    decreases |s|
  {
    if s == [] {
    } else if |s| >= 3 && HalantThenSign(s[0], s[1], s[2]) {
      RepairKeepsOthers(s[3..], c);
      KeepsOthersCollapse(s, c);
    } else if |s| >= 2 && Pairs(s[0], s[1]) {
      RepairKeepsOthers(s[2..], c);
      KeepsOthersPair(s, c);
    } else {
      RepairKeepsOthers(s[1..], c);
      KeepsOthersCopy(s, c);
    }
  }

  /** The halant-collapse step of the lemma above: the dropped halant and sign are not `c`. */
  lemma {:induction false} KeepsOthersCollapse(s: string, c: char)
    requires !IsVowel(c) && !IsVowelSign(c)
    requires |s| >= 3 && HalantThenSign(s[0], s[1], s[2])
    requires multiset(Repair(s[3..]))[c] == multiset(s[3..])[c]
    ensures multiset(Repair(s))[c] == multiset(s)[c]
  {
    var rest := Repair(s[3..]);
    assert Repair(s) == [s[0]] + rest;
    assert s == [s[0], s[1], s[2]] + s[3..];
    assert multiset([s[0], s[1], s[2]])[c] == multiset([s[0]])[c];
    CountStep([s[0]], rest, [s[0], s[1], s[2]], s[3..], c);
  }

  /** The pair step of the lemma above. */
  lemma {:induction false} KeepsOthersPair(s: string, c: char)
    requires !IsVowel(c) && !IsVowelSign(c)
    requires |s| >= 2 && !(|s| >= 3 && HalantThenSign(s[0], s[1], s[2])) && Pairs(s[0], s[1])
    requires multiset(Repair(s[2..]))[c] == multiset(s[2..])[c]
    ensures multiset(Repair(s))[c] == multiset(s)[c]
  {
    var h := RepairPair(s[0], s[1]);
    assert Repair(s) == h + Repair(s[2..]);
    assert s == [s[0], s[1]] + s[2..];
    RepairPairKeeps(s[0], s[1], c);
    CountStep(h, Repair(s[2..]), [s[0], s[1]], s[2..], c);
  }

  /** The copy step of the lemma above. */
  lemma {:induction false} KeepsOthersCopy(s: string, c: char)
    requires s != [] && !(|s| >= 3 && HalantThenSign(s[0], s[1], s[2])) && !(|s| >= 2 && Pairs(s[0], s[1]))
    requires multiset(Repair(s[1..]))[c] == multiset(s[1..])[c]
    ensures multiset(Repair(s))[c] == multiset(s)[c]
  {
    var rest := Repair(s[1..]);
    assert Repair(s) == [s[0]] + rest;
    assert s == [s[0]] + s[1..];
    CountStep([s[0]], rest, [s[0]], s[1..], c);
  }

  /** The step of the lemma above for a rewritten pair. */
  lemma {:induction false} RepairPairKeeps(a: char, b: char, c: char)
    requires Pairs(a, b) && !IsVowel(c) && !IsVowelSign(c)
    ensures multiset(RepairPair(a, b))[c] == multiset{a, b}[c]
  {
    CombineShape(a, b);
  }

  /** Without a halant and without U+0A85 no branch drops or merges anything: the pass only reorders. */
  lemma {:induction false} RepairPermutesWithoutHalantOrA(s: string)
    requires HALANT !in s && LETTER_A !in s
    ensures multiset(Repair(s)) == multiset(s)
    decreases |s|
  {
    if s != [] {
      var k := if |s| >= 2 && Pairs(s[0], s[1]) then 2 else 1;
      assert s == s[..k] + s[k..];
      assert HALANT !in s[k..] && LETTER_A !in s[k..];
      assert |s| >= 2 ==> s[1] != HALANT;
      RepairPermutesWithoutHalantOrA(s[k..]);
      RepairHeadPermutes(s, k);
    }
  }

  /** The step of the lemma above: the emitted head is a permutation of the consumed one. */
  lemma {:induction false} RepairHeadPermutes(s: string, k: nat)
    requires s != [] && s[0] != LETTER_A && (|s| >= 2 ==> s[1] != HALANT)
    requires k == if |s| >= 2 && Pairs(s[0], s[1]) then 2 else 1
    ensures exists h :: Repair(s) == h + Repair(s[k..]) && multiset(h) == multiset(s[..k])
  {
    if k == 2 {
      RepairPairPermutes(s[0], s[1]);
      assert s[..2] == [s[0], s[1]];
      RepairUnfoldPair(s);
    } else {
      assert s[..1] == [s[0]];
      RepairUnfoldOne(s);
    }
  }

  /** Unfolding the repair pass over a pair it rewrites. */
  lemma {:induction false} RepairUnfoldPair(s: string)
    requires |s| >= 2 && s[1] != HALANT && Pairs(s[0], s[1])
    ensures Repair(s) == RepairPair(s[0], s[1]) + Repair(s[2..])
  {
  }

  /** Unfolding the repair pass over a code point it copies. */
  lemma {:induction false} RepairUnfoldOne(s: string)
    requires s != [] && (|s| >= 2 ==> s[1] != HALANT && !Pairs(s[0], s[1]))
    ensures Repair(s) == [s[0]] + Repair(s[1..])
  {
  }

  /** Text with no code point in U+0A85 .. U+0ACD is left alone. */
  lemma {:induction false} RepairIdentityOutsideScript(s: string)
    requires forall k :: 0 <= k < |s| ==> !InScriptRange(s[k])
    ensures Repair(s) == s
    decreases |s|
  {
    if s != [] {
      if |s| >= 2 { CombineShape(s[0], s[1]); }
      assert forall k :: 0 <= k < |s| - 1 ==> s[1..][k] == s[k + 1];
      RepairIdentityOutsideScript(s[1..]);
    }
  }

  /** One step of the repair pass at index `i`, read off the original text by index. */
  lemma {:induction false} RepairStep(s: string, i: nat)
    requires i < |s|
    ensures i + 2 < |s| && HalantThenSign(s[i], s[i + 1], s[i + 2]) ==>
              Repair(s[i..]) == [s[i]] + Repair(s[i + 3..])
    ensures !(i + 2 < |s| && HalantThenSign(s[i], s[i + 1], s[i + 2])) && i + 1 < |s| && Pairs(s[i], s[i + 1]) ==>
              Repair(s[i..]) == RepairPair(s[i], s[i + 1]) + Repair(s[i + 2..])
    ensures !(i + 2 < |s| && HalantThenSign(s[i], s[i + 1], s[i + 2])) && !(i + 1 < |s| && Pairs(s[i], s[i + 1])) ==>
              Repair(s[i..]) == [s[i]] + Repair(s[i + 1..])
  {
    var t := s[i..];
    assert t[0] == s[i] && t[1..] == s[i + 1..];
    if i + 1 < |s| {
      assert t[1] == s[i + 1] && t[2..] == s[i + 2..];
    }
    if i + 2 < |s| {
      assert t[2] == s[i + 2] && t[3..] == s[i + 3..];
    }
  }

  /**
   * One iteration of the repair loop at index `i` (text-utils.ts:70-128):
   * what it appends to `result`, the text emitted so far, and how many code
   * points it consumes.
   */
  method RepairAt(chars: string, i: nat, result: string) returns (emitted: string, step: nat)
    requires i < |chars|
    ensures 1 <= step <= 3 && i + step <= |chars|
    ensures Repair(chars[i..]) == emitted + Repair(chars[i + step..])
  {
    var c := chars[i];
    RepairStep(chars, i);
    if i + 2 < |chars| && IsConsonant(c) && chars[i + 1] == HALANT
       && IsVowelSign(chars[i + 2]) && chars[i + 2] != HALANT
    {
      return [c], 3;
    }
    var combined := if i + 1 < |chars| then Combine(c, chars[i + 1]) else None;
    if combined.Some? {
      emitted, step := [combined.value], 2;
    } else if i + 1 < |chars| && c == I_MATRA && IsConsonant(chars[i + 1]) {
      emitted, step := [chars[i + 1], c], 2;
    } else if i + 1 < |chars| && IsConsonant(c) && IsVowelSign(chars[i + 1]) {
      emitted, step := [c, chars[i + 1]], 2;
    } else if i + 1 < |chars| && IsVowel(c) && IsVowelSign(chars[i + 1]) {
      emitted := match combined case Some(v) => [v] case None => [c, chars[i + 1]];
      step := 2;
    } else if IsVowelSign(c) && i > 0 && |result| > 0
              && (IsConsonant(result[|result| - 1]) || IsVowel(result[|result| - 1]))
    {
      // The source's isolated-vowel-sign branch emits the sign on both arms.
      emitted, step := [c], 1;
    } else {
      emitted, step := [c], 1;
    }
  }

  /** The repair pass as the source runs it (text-utils.ts:67-129). */
  method RepairSequence(chars: string) returns (result: string)
    ensures result == Repair(chars)
  {
    result := [];
    var i := 0;
    assert chars[0..] == chars;
    while i < |chars|
      invariant 0 <= i <= |chars|
      invariant result + Repair(chars[i..]) == Repair(chars)
    {
      var emitted, step := RepairAt(chars, i, result);
      assert result + emitted + Repair(chars[i + step..]) == Repair(chars);
      result := result + emitted;
      i := i + step;
    }
  }

  // ---------------------------------------------------------------------------
  // The whole normalisation
  // ---------------------------------------------------------------------------

  /**
   * `normalizeGujaratiText`: NFC, combination, i-matra relocation, repair,
   * combination again, NFC again.  The host's NFC normalisation is the
   * parameter `nfc`.
   */
  function Normalize(nfc: string -> string, text: string): string {
    nfc(CombinePairs(Repair(Relocate(CombinePairs(nfc(text))))))
  }

  /** `normalizeGujaratiText` as the source runs it (text-utils.ts:26-137). */
  method NormalizeGujaratiText(nfc: string -> string, text: string) returns (r: string)
    ensures r == Normalize(nfc, text)
  {
    var normalized := nfc(text);
    normalized := CombineVowelPairs(normalized);
    var firstPass := RelocateIMatra(normalized);
    var result := RepairSequence(firstPass);
    result := CombineVowelPairs(result);
    r := nfc(result);
  }

  /**
   * Text outside U+0A85 .. U+0ACD (Latin, digits, the rest of the Gujarati
   * block) is only ever NFC-normalised, twice.
   */
  lemma {:induction false} NormalizeOutsideScript(nfc: string -> string, text: string)
    requires forall k :: 0 <= k < |nfc(text)| ==> !InScriptRange(nfc(text)[k])
    ensures Normalize(nfc, text) == nfc(nfc(text))
  {
    var t := nfc(text);
    VowelCombinationsWellFormed();
    assert LETTER_A !in t && I_MATRA !in t;
    CombineIdentityWithoutA(t, VowelCombinations);
    RelocateIdentityWithoutIMatra(t);
    RepairIdentityOutsideScript(t);
    CombineIdentityWithoutA(t, VowelCombinations);
  }

  /**
   * No key of the combination table survives to the final NFC step: the
   * second combination pass removes every pair the repair pass produced.
   */
  lemma {:induction false} NormalizeLeavesNoKey(nfc: string -> string, text: string)
    requires forall t :: NoKeyIn(t, VowelCombinations) ==> NoKeyIn(nfc(t), VowelCombinations)
    ensures NoKeyIn(Normalize(nfc, text), VowelCombinations)
  {
    var combined := CombinePairs(Repair(Relocate(CombinePairs(nfc(text)))));
    CombineLeavesNoKey(Repair(Relocate(CombinePairs(nfc(text)))), VowelCombinations);
    assert NoKeyIn(combined, VowelCombinations);
    assert Normalize(nfc, text) == nfc(combined);
  }

  /** When NFC leaves the pair alone, U+0A85 and a vowel sign become the table's vowel. */
  lemma {:induction false} NormalizeCombinesPair(nfc: string -> string, k: nat)
    requires k < |VowelCombinations|
    requires var e := VowelCombinations[k];
             nfc([e.base, e.sign]) == [e.base, e.sign] && nfc([e.vowel]) == [e.vowel]
    ensures var e := VowelCombinations[k]; Normalize(nfc, [e.base, e.sign]) == [e.vowel]
  {
    var e := VowelCombinations[k];
    VowelCombinationsWellFormed();
    VowelCombinationsDistinct();
    LookupEntry(VowelCombinations, k);
    CombineHead([e.base, e.sign], VowelCombinations);
    assert [e.base, e.sign][2..] == [];
    CombineIdentityWithoutA([e.vowel], VowelCombinations);
    RelocateIdentityWithoutIMatra([e.vowel]);
    RepairUnfoldOne([e.vowel]);
  }

  /** The passes of `Normalize` on text none of whose pairs is combined. */
  lemma {:induction false} NormalizeWithoutA(nfc: string -> string, text: string, moved: string, repaired: string)
    requires nfc(text) == text && LETTER_A !in text
    requires Relocate(text) == moved && Repair(moved) == repaired && LETTER_A !in repaired
    ensures Normalize(nfc, text) == nfc(repaired)
  {
    VowelCombinationsWellFormed();
    CombineIdentityWithoutA(text, VowelCombinations);
    CombineIdentityWithoutA(repaired, VowelCombinations);
  }

  /** An i-matra typed before its consonant ends up after it. */
  lemma {:induction false} NormalizeMovesIMatra(nfc: string -> string, c: char)
    requires IsConsonant(c)
    requires nfc([I_MATRA, c]) == [I_MATRA, c] && nfc([c, I_MATRA]) == [c, I_MATRA]
    ensures Normalize(nfc, [I_MATRA, c]) == [c, I_MATRA]
  {
    assert IsFirstConsonant([c], 0);
    RelocateToFirstConsonant([c], 0);
    assert [I_MATRA] + [c] == [I_MATRA, c];
    assert [c][..1] == [c] && [c][1..] == [];
    assert Relocate([I_MATRA, c]) == [c, I_MATRA];
    CombineShape(c, I_MATRA);
    RepairUnfoldPair([c, I_MATRA]);
    assert [c, I_MATRA][2..] == [];
    assert Repair([c, I_MATRA]) == [c, I_MATRA];
    NormalizeWithoutA(nfc, [I_MATRA, c], [c, I_MATRA], [c, I_MATRA]);
  }

  /** An i-matra before two consonants is moved past the first ("િકત" becomes "કિત"). */
  lemma {:induction false} NormalizeFirstRun(nfc: string -> string, c: char, d: char)
    requires IsConsonant(c) && IsConsonant(d)
    requires nfc([I_MATRA, c, d]) == [I_MATRA, c, d] && nfc([c, I_MATRA, d]) == [c, I_MATRA, d]
    ensures Normalize(nfc, [I_MATRA, c, d]) == [c, I_MATRA, d]
  {
    assert IsFirstConsonant([c, d], 0);
    RelocateToFirstConsonant([c, d], 0);
    assert [I_MATRA] + [c, d] == [I_MATRA, c, d];
    assert [c, d][..1] == [c] && [c, d][1..] == [d];
    RelocateIdentityWithoutIMatra([d]);
    assert Relocate([I_MATRA, c, d]) == [c, I_MATRA, d];
    CombineShape(c, I_MATRA);
    RepairUnfoldPair([c, I_MATRA, d]);
    assert [c, I_MATRA, d][2..] == [d];
    RepairUnfoldOne([d]);
    assert [d][1..] == [];
    assert Repair([c, I_MATRA, d]) == [c, I_MATRA, d];
    NormalizeWithoutA(nfc, [I_MATRA, c, d], [c, I_MATRA, d], [c, I_MATRA, d]);
  }

  /** An i-matra between two consonants is moved past the second ("કિત" becomes "કતિ"). */
  lemma {:induction false} NormalizeSecondRun(nfc: string -> string, c: char, d: char)
    requires IsConsonant(c) && IsConsonant(d)
    requires nfc([c, I_MATRA, d]) == [c, I_MATRA, d] && nfc([c, d, I_MATRA]) == [c, d, I_MATRA]
    ensures Normalize(nfc, [c, I_MATRA, d]) == [c, d, I_MATRA]
  {
    assert IsFirstConsonant([d], 0);
    RelocateToFirstConsonant([d], 0);
    assert [d][..1] == [d] && [d][1..] == [];
    assert [I_MATRA] + [d] == [I_MATRA, d];
    assert [c, I_MATRA, d][1..] == [I_MATRA, d];
    assert Relocate([c, I_MATRA, d]) == [c] + Relocate([I_MATRA, d]);
    assert Relocate([c, I_MATRA, d]) == [c, d, I_MATRA];
    CombineShape(c, d);
    RepairUnfoldOne([c, d, I_MATRA]);
    assert [c, d, I_MATRA][1..] == [d, I_MATRA];
    CombineShape(d, I_MATRA);
    RepairUnfoldPair([d, I_MATRA]);
    assert [d, I_MATRA][2..] == [];
    assert Repair([c, d, I_MATRA]) == [c, d, I_MATRA];
    NormalizeWithoutA(nfc, [c, I_MATRA, d], [c, d, I_MATRA], [c, d, I_MATRA]);
  }

  /**
   * The normalisation is not idempotent: "િકત" becomes "કિત", which becomes
   * "કતિ", since an i-matra is always moved past the next consonant, even when
   * it already follows one.  The same holds for any two consonants.
   */
  lemma {:induction false} NormalizeNotIdempotent(nfc: string -> string, c: char, d: char)
    requires IsConsonant(c) && IsConsonant(d)
    requires nfc([I_MATRA, c, d]) == [I_MATRA, c, d]
    requires nfc([c, I_MATRA, d]) == [c, I_MATRA, d]
    requires nfc([c, d, I_MATRA]) == [c, d, I_MATRA]
    ensures Normalize(nfc, Normalize(nfc, [I_MATRA, c, d])) != Normalize(nfc, [I_MATRA, c, d])
  {
    NormalizeFirstRun(nfc, c, d);
    NormalizeSecondRun(nfc, c, d);
    assert [c, d, I_MATRA][1] != [c, I_MATRA, d][1];
  }
}
