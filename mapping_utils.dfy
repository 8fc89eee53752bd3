/**
 * The client's conversion helpers: rule-based conversion of normalised
 * Gujarati text, the text statistics, and the CSV and TXT rule import.
 * The host's `toLowerCase` is the parameter `lower` and its NFC
 * normalisation the parameter `nfc`.
 */
module MappingUtils {
  import opened Wrappers
  import opened Schema
  import opened JsString
  import opened TextUtils

  // ---------------------------------------------------------------------------
  // Rule matching
  // ---------------------------------------------------------------------------

  /** `rules.filter(rule => rule.isActive)`. */
  function ActiveRules(rules: seq<MappingRule>): (r: seq<MappingRule>)
    ensures |r| <= |rules|
  {
    if rules == [] then []
    else (if Truthy(rules[0].isActive) then [rules[0]] else []) + ActiveRules(rules[1..])
  }

  /** A rule is kept exactly when it is in the list and active. */
  lemma {:induction false} ActiveRulesMembers(rules: seq<MappingRule>, x: MappingRule)
    ensures x in ActiveRules(rules) <==> x in rules && Truthy(x.isActive)
  {
    if rules != [] {
      ActiveRulesMembers(rules[1..], x);
      assert rules == [rules[0]] + rules[1..];
    }
  }

  /** Filtering keeps list order: it distributes over concatenation. */
  lemma {:induction false} ActiveRulesConcat(a: seq<MappingRule>, b: seq<MappingRule>)
    ensures ActiveRules(a + b) == ActiveRules(a) + ActiveRules(b)
  {
    if a == [] {
      assert a + b == b;
    } else {
      assert (a + b)[0] == a[0];
      assert (a + b)[1..] == a[1..] + b;
      ActiveRulesConcat(a[1..], b);
      assert ActiveRules(a + b) == (if Truthy(a[0].isActive) then [a[0]] else []) + ActiveRules(a[1..] + b);
    }
  }

  /**
   * Whether `rule` matches the code point `c` (mapping-utils.ts:19-26): a
   * case-sensitive rule when its source is exactly `c`, any other rule when
   * the lower-cased forms agree.
   */
  predicate Matches(lower: string -> string, rule: MappingRule, c: char) {
    if Truthy(rule.caseSensitive) then [c] == rule.sourceChar
    else lower([c]) == lower(rule.sourceChar)
  }

  /** A case-sensitive rule whose source is not a single code point never matches. */
  lemma {:induction false} CaseSensitiveNeedsOneCodePoint(lower: string -> string, rule: MappingRule, c: char)
    requires Truthy(rule.caseSensitive) && |rule.sourceChar| != 1
    ensures !Matches(lower, rule, c)
  {
  }

  /** A `caseSensitive` of `null` (or absent) matches exactly as `false` does. */
  lemma {:induction false} NullCaseSensitivityIsFalse(lower: string -> string, rule: MappingRule, c: char)
    ensures Matches(lower, rule.(caseSensitive := None), c) == Matches(lower, rule.(caseSensitive := Some(false)), c)
  {
  }

  /** Turning a rule case-insensitive never loses a match: a case-sensitive match is also a case-insensitive one. */
  lemma {:induction false} SensitiveMatchIsInsensitiveMatch(lower: string -> string, rule: MappingRule, c: char)
    requires Matches(lower, rule.(caseSensitive := Some(true)), c)
    ensures Matches(lower, rule.(caseSensitive := Some(false)), c)
  {
  }

  /** The index of the first rule that matches `c`. */
  function FirstMatch(rules: seq<MappingRule>, lower: string -> string, c: char): (r: Option<nat>)
    ensures r.Some? ==> r.value < |rules|
  {
    if rules == [] then None
    else if Matches(lower, rules[0], c) then Some(0)
    else match FirstMatch(rules[1..], lower, c)
      case Some(k) => Some(k + 1)
      case None => None
  }

  /** `FirstMatch` finds the first matching rule, and finds none only when no rule matches. */
  lemma {:induction false} FirstMatchSpec(rules: seq<MappingRule>, lower: string -> string, c: char)
    ensures match FirstMatch(rules, lower, c)
      case Some(k) => Matches(lower, rules[k], c) && forall j :: 0 <= j < k ==> !Matches(lower, rules[j], c)
      case None => forall j :: 0 <= j < |rules| ==> !Matches(lower, rules[j], c)
  {
    if rules != [] && !Matches(lower, rules[0], c) {
      FirstMatchSpec(rules[1..], lower, c);
      assert forall j :: 1 <= j < |rules| ==> rules[j] == rules[1..][j - 1];
    }
  }

  /** A matching rule with no matching rule before it is the one `FirstMatch` finds. */
  lemma {:induction false} FirstMatchIs(rules: seq<MappingRule>, lower: string -> string, c: char, k: nat)
    requires k < |rules| && Matches(lower, rules[k], c)
    requires forall j :: 0 <= j < k ==> !Matches(lower, rules[j], c)
    ensures FirstMatch(rules, lower, c) == Some(k)
  {
    FirstMatchSpec(rules, lower, c);
    match FirstMatch(rules, lower, c)
    case Some(m) => {
      if m < k {
      } else if m > k {
      }
    }
    case None =>
  }

  /** What a code point becomes: the first matching rule's target, or itself. */
  function Image(rules: seq<MappingRule>, lower: string -> string, c: char): string {
    match FirstMatch(rules, lower, c)
    case Some(k) => rules[k].targetChar
    case None => [c]
  }

  /** Once a rule of `a` matches, the rules after it are ignored. */
  lemma {:induction false} LaterRulesIgnored(a: seq<MappingRule>, b: seq<MappingRule>, lower: string -> string, c: char)
    requires exists k :: 0 <= k < |a| && Matches(lower, a[k], c)
    ensures Image(a + b, lower, c) == Image(a, lower, c)
  {
    FirstMatchSpec(a, lower, c);
    var k :| 0 <= k < |a| && Matches(lower, a[k], c);
    var m := FirstMatch(a, lower, c).value;
    assert (a + b)[m] == a[m];
    FirstMatchIs(a + b, lower, c, m);
  }

  /**
   * The converted text before the final normalisation: the concatenation of
   * the images of the code points.
   */
  function Substitute(rules: seq<MappingRule>, lower: string -> string, s: string): string {
    if s == [] then [] else Image(rules, lower, s[0]) + Substitute(rules, lower, s[1..])
  }

  /**
   * Substitution works code point by code point: a target, once emitted, is
   * never looked at again.
   */
  lemma {:induction false} SubstituteConcat(rules: seq<MappingRule>, lower: string -> string, s: string, t: string)
    ensures Substitute(rules, lower, s + t) == Substitute(rules, lower, s) + Substitute(rules, lower, t)
  {
    if s == [] {
      assert s + t == t;
    } else {
      assert (s + t)[0] == s[0];
      assert (s + t)[1..] == s[1..] + t;
      SubstituteConcat(rules, lower, s[1..], t);
      assert Substitute(rules, lower, s + t) == Image(rules, lower, s[0]) + Substitute(rules, lower, s[1..] + t);
    }
  }

  /** With no rules, every code point is its own image. */
  lemma {:induction false} SubstituteNoRules(lower: string -> string, s: string)
    ensures Substitute([], lower, s) == s
  {
    if s != [] {
      SubstituteNoRules(lower, s[1..]);
    }
  }

  // ---------------------------------------------------------------------------
  // convertText
  // ---------------------------------------------------------------------------

  /** `convertText`: normalise, substitute with the active rules, normalise again. */
  function Convert(nfc: string -> string, lower: string -> string, text: string, rules: seq<MappingRule>): string {
    Normalize(nfc, Substitute(ActiveRules(rules), lower, Normalize(nfc, text)))
  }

  /** `convertText` as the source runs it (mapping-utils.ts:4-43). */
  method ConvertText(nfc: string -> string, lower: string -> string, text: string, rules: seq<MappingRule>)
    returns (r: string)
    ensures r == Convert(nfc, lower, text, rules)
  {
    var activeRules := ActiveRules(rules);
    var normalizedText := NormalizeGujaratiText(nfc, text);
    var result := [];
    var chars := normalizedText;
    for i := 0 to |chars|
      invariant result == Substitute(activeRules, lower, chars[..i])
    {
      var image := ConvertChar(activeRules, lower, chars[i]);
      assert chars[..i + 1] == chars[..i] + [chars[i]];
      SubstituteConcat(activeRules, lower, chars[..i], [chars[i]]);
      result := result + image;
    }
    assert chars[..|chars|] == chars;
    r := NormalizeGujaratiText(nfc, result);
  }

  /**
   * One iteration of the loop over the code points (mapping-utils.ts:16-35):
   * the rules are tried in order, the first match emits its target, and a
   * code point no rule matches is kept.
   */
  method ConvertChar(activeRules: seq<MappingRule>, lower: string -> string, c: char) returns (out: string)
    ensures out == Image(activeRules, lower, c)
  {
    var converted := false;
    var j := 0;
    out := [];
    while j < |activeRules|
      invariant 0 <= j <= |activeRules|
      invariant forall k :: 0 <= k < j ==> !Matches(lower, activeRules[k], c)
    {
      var rule := activeRules[j];
      var matches := false;
      if Truthy(rule.caseSensitive) {
        matches := [c] == rule.sourceChar;
      } else {
        matches := lower([c]) == lower(rule.sourceChar);
      }
      if matches {
        FirstMatchIs(activeRules, lower, c, j);
        out := rule.targetChar;
        converted := true;
        break;
      }
      j := j + 1;
    }
    if !converted {
      FirstMatchSpec(activeRules, lower, c);
      out := [c];
    }
  }

  /** With no active rule the conversion is normalisation twice over. */
  lemma {:induction false} ConvertWithoutActiveRules(nfc: string -> string, lower: string -> string, text: string, rules: seq<MappingRule>)
    requires forall k :: 0 <= k < |rules| ==> !Truthy(rules[k].isActive)
    ensures Convert(nfc, lower, text, rules) == Normalize(nfc, Normalize(nfc, text))
  {
    if ActiveRules(rules) != [] {
      ActiveRulesMembers(rules, ActiveRules(rules)[0]);
    }
    SubstituteNoRules(lower, Normalize(nfc, text));
  }

  /** An inactive (false or null) rule, wherever it stands, never affects the output. */
  lemma {:induction false} InactiveRuleIrrelevant(nfc: string -> string, lower: string -> string, text: string,
                               a: seq<MappingRule>, x: MappingRule, b: seq<MappingRule>)
    requires !Truthy(x.isActive)
    ensures Convert(nfc, lower, text, a + [x] + b) == Convert(nfc, lower, text, a + b)
  {
    ActiveRulesConcat(a + [x], b);
    ActiveRulesConcat(a, [x]);
    ActiveRulesConcat(a, b);
    assert ActiveRules([x]) == [];
    assert ActiveRules(a + [x]) == ActiveRules(a);
    assert ActiveRules(a + [x] + b) == ActiveRules(a + b);
  }

  // ---------------------------------------------------------------------------
  // getTextStatistics
  // ---------------------------------------------------------------------------

  datatype TextStatistics = TextStatistics(characters: nat, words: nat, lines: nat)

  /**
   * `getTextStatistics` (mapping-utils.ts:45-51): UTF-16 length, the number
   * of whitespace-separated words, and one more line than there are line feeds.
   */
  function GetTextStatistics(text: string): (r: TextStatistics)
    ensures r.characters >= |text|
    ensures (forall k :: 0 <= k < |text| ==> text[k] as int <= 0xFFFF) ==> r.characters == |text|
    ensures r.lines == 1 + Count(text, '\n')
    ensures r.words == WordStarts(text, true)
    ensures r.words == 0 <==> AllWhitespace(text)
  {
    Utf16LengthOfBmp(text);
    SplitCount(text, '\n');
    TrimEmpty(text);
    var words := if Trim(text) != [] then |SplitOnWhitespace(Trim(text))| else 0;
    if Trim(text) != [] then SplitTrimmedCountsWords(text); TextStatistics(Utf16Length(text), words, |Split(text, '\n')|)
    else WordStartsWhitespace(text, true); TextStatistics(Utf16Length(text), words, |Split(text, '\n')|)
  }

  // ---------------------------------------------------------------------------
  // parseImportFile: CSV and TXT
  // ---------------------------------------------------------------------------

  /** A rule read from an import file; `targetChar` is `undefined` when the line has one field. */
  datatype ImportedRule = ImportedRule(sourceChar: string, targetChar: Option<string>, caseSensitive: bool)

  /** What `parseImportFile` resolves or rejects with; JSON content is passed on unparsed. */
  datatype ImportResult = JsonContent(content: string) | Imported(rules: seq<ImportedRule>) | Unsupported

  /** `lines.filter(line => line.trim())`. */
  function NonBlank(lines: seq<string>): (r: seq<string>)
    ensures |r| <= |lines|
  {
    if lines == [] then []
    else (if Trim(lines[0]) != [] then [lines[0]] else []) + NonBlank(lines[1..])
  }

  /** The blank-line filter keeps exactly the lines whose trimmed form is not empty. */
  lemma {:induction false} NonBlankMembers(lines: seq<string>)
    ensures forall x :: x in NonBlank(lines) <==> x in lines && Trim(x) != []
  {
    if lines != [] {
      NonBlankMembers(lines[1..]);
      assert lines == [lines[0]] + lines[1..];
    }
  }

  /** The blank-line filter keeps line order: it distributes over concatenation. */
  lemma {:induction false} NonBlankConcat(a: seq<string>, b: seq<string>)
    ensures NonBlank(a + b) == NonBlank(a) + NonBlank(b)
  {
    if a == [] {
      assert a + b == b;
    } else {
      assert (a + b)[0] == a[0];
      assert (a + b)[1..] == a[1..] + b;
      NonBlankConcat(a[1..], b);
      assert NonBlank(a + b) == (if Trim(a[0]) != [] then [a[0]] else []) + NonBlank(a[1..] + b);
    }
  }

  /** A blank line, wherever it stands, is dropped as if it were not there. */
  lemma {:induction false} NonBlankDropsBlank(a: seq<string>, w: string, b: seq<string>)
    requires AllWhitespace(w)
    ensures NonBlank(a + [w] + b) == NonBlank(a + b)
  {
    NonBlankOfBlank(w);
    NonBlankConcat(a, [w]);
    var aw := NonBlank(a + [w]);
    assert aw == NonBlank(a);
    NonBlankConcat(a + [w], b);
    NonBlankConcat(a, b);
  }

  /** A single blank line is dropped. */
  lemma {:induction false} NonBlankOfBlank(w: string)
    requires AllWhitespace(w)
    ensures NonBlank([w]) == []
  {
    TrimEmpty(w);
    assert [w][1..] == [];
  }

  /** `content.split('\n').filter(line => line.trim())`. */
  function NonBlankLines(content: string): seq<string> {
    NonBlank(Split(content, '\n'))
  }

  /** `.map(s => s.trim())`. */
  function TrimAll(parts: seq<string>): (r: seq<string>)
    ensures |r| == |parts|
  {
    if parts == [] then [] else [Trim(parts[0])] + TrimAll(parts[1..])
  }

  /** `const [sourceChar, targetChar] = line.split(sep).map(s => s.trim())`, with `caseSensitive: true`. */
  function LineRule(line: string, sep: char): ImportedRule {
    var fields := TrimAll(Split(line, sep));
    ImportedRule(fields[0], if |fields| >= 2 then Some(fields[1]) else None, true)
  }

  function LineRules(lines: seq<string>, sep: char): (r: seq<ImportedRule>)
    ensures |r| == |lines|
    ensures forall k :: 0 <= k < |r| ==> r[k] == LineRule(lines[k], sep)
  {
    if lines == [] then [] else [LineRule(lines[0], sep)] + LineRules(lines[1..], sep)
  }

  /** The CSV import: non-blank lines, the first dropped as a header, one rule per line. */
  function ParseCsv(content: string): (r: seq<ImportedRule>)
    ensures |r| == if NonBlankLines(content) == [] then 0 else |NonBlankLines(content)| - 1
    ensures forall k :: 0 <= k < |r| ==> r[k] == LineRule(NonBlankLines(content)[k + 1], ',')
  {
    var lines := NonBlankLines(content);
    if lines == [] then [] else LineRules(lines[1..], ',')
  }

  /** `rule.sourceChar && rule.targetChar`: both sides present and non-empty. */
  predicate IsComplete(rule: ImportedRule) {
    rule.sourceChar != [] && rule.targetChar.Some? && rule.targetChar.value != []
  }

  /** `.filter(rule => rule.sourceChar && rule.targetChar)`. */
  function Complete(rules: seq<ImportedRule>): (r: seq<ImportedRule>)
    ensures |r| <= |rules|
    ensures forall x :: x in r <==> x in rules && IsComplete(x)
  {
    if rules == [] then []
    else (if IsComplete(rules[0]) then [rules[0]] else []) + Complete(rules[1..])
  }

  /** The completeness filter keeps rule order: it distributes over concatenation. */
  lemma {:induction false} CompleteConcat(a: seq<ImportedRule>, b: seq<ImportedRule>)
    ensures Complete(a + b) == Complete(a) + Complete(b)
  {
    if a == [] {
      assert a + b == b;
    } else {
      assert (a + b)[0] == a[0];
      assert (a + b)[1..] == a[1..] + b;
      CompleteConcat(a[1..], b);
      assert Complete(a + b) == (if IsComplete(a[0]) then [a[0]] else []) + Complete(a[1..] + b);
    }
  }

  /** The TXT import: one rule per non-blank `source=target` line with both sides non-empty. */
  function ParseTxt(content: string): (r: seq<ImportedRule>)
    ensures forall x :: x in r <==> IsComplete(x) && exists line :: line in NonBlankLines(content) && x == LineRule(line, '=')
  {
    Complete(LineRules(NonBlankLines(content), '='))
  }

  /** Whether `name` ends with `suffix`. */
  predicate EndsWith(name: string, suffix: string) {
    |suffix| <= |name| && name[|name| - |suffix|..] == suffix
  }

  /** The format dispatch of `parseImportFile` on the lower-cased file name (mapping-utils.ts:74-92). */
  function ParseImport(lower: string -> string, fileName: string, content: string): (r: ImportResult)
    ensures r.JsonContent? <==> EndsWith(lower(fileName), ".json")
    ensures r.JsonContent? ==> r.content == content
    ensures !EndsWith(lower(fileName), ".json") && EndsWith(lower(fileName), ".csv") ==> r == Imported(ParseCsv(content))
    ensures !EndsWith(lower(fileName), ".json") && !EndsWith(lower(fileName), ".csv") && EndsWith(lower(fileName), ".txt")
            ==> r == Imported(ParseTxt(content))
    ensures r.Unsupported? <==> !EndsWith(lower(fileName), ".json") && !EndsWith(lower(fileName), ".csv")
                                && !EndsWith(lower(fileName), ".txt")
  {
    var name := lower(fileName);
    if EndsWith(name, ".json") then JsonContent(content)
    else if EndsWith(name, ".csv") then Imported(ParseCsv(content))
    else if EndsWith(name, ".txt") then Imported(ParseTxt(content))
    else Unsupported
  }

  // ---------------------------------------------------------------------------
  // Round trips through a rendering of rules as lines
  // ---------------------------------------------------------------------------

  /** A field that survives the import unchanged: trimmed, without separator or line feed. */
  predicate CleanField(field: string, sep: char) {
    Trim(field) == field && sep !in field && '\n' !in field
  }

  /** The lines `source<sep>target`. */
  function RuleLines(pairs: seq<(string, string)>, sep: char): (r: seq<string>)
    ensures |r| == |pairs|
  {
    if pairs == [] then [] else [pairs[0].0 + [sep] + pairs[0].1] + RuleLines(pairs[1..], sep)
  }

  /** The rules the import is expected to produce for `pairs`. */
  function AsRules(pairs: seq<(string, string)>): (r: seq<ImportedRule>)
    ensures |r| == |pairs|
  {
    if pairs == [] then [] else [ImportedRule(pairs[0].0, Some(pairs[0].1), true)] + AsRules(pairs[1..])
  }

  /** A CSV file: a header line, then one `source,target` line per rule. */
  function FormatCsv(header: string, pairs: seq<(string, string)>): string {
    Join([header] + RuleLines(pairs, ','), '\n')
  }

  /** A TXT file: one `source=target` line per rule. */
  function FormatTxt(pairs: seq<(string, string)>): string {
    if pairs == [] then [] else Join(RuleLines(pairs, '='), '\n')
  }

  /** A line `source<sep>target` of clean fields is read back as that rule, and is not blank. */
  lemma {:induction false} LineRuleOfPair(source: string, target: string, sep: char)
    requires CleanField(source, sep) && CleanField(target, sep) && !IsWhitespace(sep)
    ensures LineRule(source + [sep] + target, sep) == ImportedRule(source, Some(target), true)
    ensures Trim(source + [sep] + target) != []
  {
    JoinSplit([source, target], sep);
    assert Join([source, target], sep) == source + [sep] + target;
    assert TrimAll([source, target]) == [source, target] by {
      assert [source, target][1..] == [target];
    }
    var line := source + [sep] + target;
    TrimEmpty(line);
    assert !IsWhitespace(line[|source|]);
  }

  /**
   * Whitespace around either field of a line is trimmed away: a padded line
   * `w1 source w2 <sep> w3 target w4` is read as the rule (source, target).
   */
  lemma {:induction false} LineRulePadded(w1: string, source: string, w2: string, w3: string, target: string, w4: string,
                                          sep: char)
    requires AllWhitespace(w1) && AllWhitespace(w2) && AllWhitespace(w3) && AllWhitespace(w4)
    requires CleanField(source, sep) && CleanField(target, sep) && !IsWhitespace(sep)
    ensures LineRule((w1 + source + w2) + [sep] + (w3 + target + w4), sep) == ImportedRule(source, Some(target), true)
  {
    var f1, f2 := w1 + source + w2, w3 + target + w4;
    assert sep !in w1 && sep !in w2 && sep !in w3 && sep !in w4;
    assert sep !in f1 && sep !in f2;
    JoinSplit([f1, f2], sep);
    assert Join([f1, f2], sep) == f1 + [sep] + f2 by {
      assert [f1, f2][1..] == [f2];
    }
    TrimPadded(w1, source, w2);
    TrimPadded(w3, target, w4);
    assert TrimAll([f1, f2]) == [source, target] by {
      assert [f1, f2][1..] == [f2];
    }
  }

  /** Clean pairs give lines that are read back as their rules. */
  predicate CleanPairs(pairs: seq<(string, string)>, sep: char) {
    forall k :: 0 <= k < |pairs| ==> CleanField(pairs[k].0, sep) && CleanField(pairs[k].1, sep)
  }

  /** The rendered lines are read back as the pairs' rules; none is blank or has a line feed. */
  lemma {:induction false} LineRulesOfPairs(pairs: seq<(string, string)>, sep: char)
    requires CleanPairs(pairs, sep) && !IsWhitespace(sep) && sep != '\n'
    ensures LineRules(RuleLines(pairs, sep), sep) == AsRules(pairs)
    ensures NonBlank(RuleLines(pairs, sep)) == RuleLines(pairs, sep)
    ensures forall k :: 0 <= k < |pairs| ==> '\n' !in RuleLines(pairs, sep)[k]
  {
    if pairs != [] {
      var line := pairs[0].0 + [sep] + pairs[0].1;
      assert CleanPairs(pairs[1..], sep) by {
        assert forall k :: 0 <= k < |pairs| - 1 ==> pairs[1..][k] == pairs[k + 1];
      }
      LineRulesOfPairs(pairs[1..], sep);
      LineRuleOfPair(pairs[0].0, pairs[0].1, sep);
      var lines := RuleLines(pairs, sep);
      assert lines[0] == line && lines[1..] == RuleLines(pairs[1..], sep);
      assert '\n' !in line;
      assert forall k :: 1 <= k < |pairs| ==> lines[k] == RuleLines(pairs[1..], sep)[k - 1];
    }
  }

  /**
   * Importing a rendered CSV file gives back its rules, each case-sensitive,
   * when the header is not blank and no field carries a comma, a line feed or
   * surrounding whitespace.
   */
  lemma {:induction false} CsvRoundTrip(header: string, pairs: seq<(string, string)>)
    requires Trim(header) != [] && '\n' !in header
    requires CleanPairs(pairs, ',')
    ensures ParseCsv(FormatCsv(header, pairs)) == AsRules(pairs)
  {
    var body := RuleLines(pairs, ',');
    CsvLines(header, pairs);
    LineRulesOfPairs(pairs, ',');
    assert ([header] + body)[1..] == body;
  }

  /** The non-blank lines of a rendered CSV file are its header and its rule lines. */
  lemma {:induction false} CsvLines(header: string, pairs: seq<(string, string)>)
    requires Trim(header) != [] && '\n' !in header
    requires CleanPairs(pairs, ',')
    ensures NonBlankLines(FormatCsv(header, pairs)) == [header] + RuleLines(pairs, ',')
  {
    var body := RuleLines(pairs, ',');
    var lines := [header] + body;
    LineRulesOfPairs(pairs, ',');
    forall k | 0 <= k < |lines|
      ensures '\n' !in lines[k]
    {
      if k > 0 {
        assert lines[k] == body[k - 1];
      }
    }
    JoinSplit(lines, '\n');
    assert Split(FormatCsv(header, pairs), '\n') == lines;
    assert lines[0] == header && lines[1..] == body;
    assert NonBlank(lines) == [header] + NonBlank(body);
  }

  /**
   * Importing a rendered TXT file gives back its rules when every source and
   * target is non-empty and carries no `=`, line feed or surrounding whitespace.
   */
  lemma {:induction false} TxtRoundTrip(pairs: seq<(string, string)>)
    requires CleanPairs(pairs, '=')
    requires forall k :: 0 <= k < |pairs| ==> pairs[k].0 != [] && pairs[k].1 != []
    ensures ParseTxt(FormatTxt(pairs)) == AsRules(pairs)
  {
    if pairs != [] {
      var lines := RuleLines(pairs, '=');
      LineRulesOfPairs(pairs, '=');
      JoinSplit(lines, '\n');
      assert NonBlankLines(FormatTxt(pairs)) == lines;
      assert LineRules(lines, '=') == AsRules(pairs);
      CompleteKeepsPairs(pairs);
    }
  }

  /** The rules of pairs whose sides are non-empty all pass the TXT filter. */
  lemma {:induction false} CompleteKeepsPairs(pairs: seq<(string, string)>)
    requires forall k :: 0 <= k < |pairs| ==> pairs[k].0 != [] && pairs[k].1 != []
    ensures Complete(AsRules(pairs)) == AsRules(pairs)
  {
    if pairs != [] {
      assert forall k :: 0 <= k < |pairs| - 1 ==> pairs[1..][k] == pairs[k + 1];
      CompleteKeepsPairs(pairs[1..]);
    }
  }

  // ---------------------------------------------------------------------------
  // parseImportFile on rendered files
  // ---------------------------------------------------------------------------

  /** A name that ends with a non-empty suffix ends with the suffix's last code point. */
  lemma {:induction false} EndsWithLast(name: string, suffix: string)
    requires suffix != [] && EndsWith(name, suffix)
    ensures name != [] && name[|name| - 1] == suffix[|suffix| - 1]
  {
    assert name[|name| - |suffix|..][|suffix| - 1] == name[|name| - 1];
  }

  /** A file whose name ends in `.csv`, in any case, holding a rendered CSV text is imported as its rules. */
  lemma {:induction false} ImportCsvFile(lower: string -> string, fileName: string, header: string,
                                         pairs: seq<(string, string)>)
    requires EndsWith(lower(fileName), ".csv")
    requires Trim(header) != [] && '\n' !in header
    requires CleanPairs(pairs, ',')
    ensures ParseImport(lower, fileName, FormatCsv(header, pairs)) == Imported(AsRules(pairs))
  {
    EndsWithLast(lower(fileName), ".csv");
    if EndsWith(lower(fileName), ".json") {
      EndsWithLast(lower(fileName), ".json");
    }
    CsvRoundTrip(header, pairs);
  }

  /** A file whose name ends in `.txt`, in any case, holding a rendered TXT text is imported as its rules. */
  lemma {:induction false} ImportTxtFile(lower: string -> string, fileName: string, pairs: seq<(string, string)>)
    requires EndsWith(lower(fileName), ".txt")
    requires CleanPairs(pairs, '=')
    requires forall k :: 0 <= k < |pairs| ==> pairs[k].0 != [] && pairs[k].1 != []
    ensures ParseImport(lower, fileName, FormatTxt(pairs)) == Imported(AsRules(pairs))
  {
    EndsWithLast(lower(fileName), ".txt");
    if EndsWith(lower(fileName), ".json") {
      EndsWithLast(lower(fileName), ".json");
    }
    if EndsWith(lower(fileName), ".csv") {
      EndsWithLast(lower(fileName), ".csv");
    }
    TxtRoundTrip(pairs);
  }
}
