# Legacy font maker: a verified model of its conversion core

The legacy font maker converts typed text into Gujarati script with a table of
character mapping rules. This project models three parts of it in Dafny and
proves properties of the model:

- **Gujarati text normalisation** (`shared/text-utils.ts`, module `TextUtils`).
  `normalizeGujaratiText` runs a fixed pipeline over code points:
  1. NFC;
  2. a table-driven pass that combines અ and a vowel sign into an independent
     vowel, using ten table entries (the entry for અ + િ is switched off);
  3. a relocation pass. An i-matra (િ) met in the scan is emitted right after
     the first consonant that follows it, and the text in between is copied in
     order. An i-matra inside that copied span is not moved again, and an
     i-matra with no later consonant stays where it is;
  4. a repair pass with one and two code points of lookahead;
  5. the combination pass again;
  6. NFC again.

  Each pass is a function over code-point sequences, and a method follows the
  source's loops and is proved equal to that function.
- **The client's conversion helpers** (`client/src/lib/mapping-utils.ts`,
  module `MappingUtils`). These are:
  - `convertText`: normalise, replace each code point with the target of the
    first active rule that matches it, normalise again;
  - `getTextStatistics`;
  - the CSV and TXT branches of `parseImportFile`.

  The JavaScript string built-ins they use (`trim`, `split`, `split(/\s+/)`,
  `length`) are in module `JsString`.
- **The server's in-memory store** (`server/storage.ts`, class
  `Storage.MemStorage`). It holds two insertion-ordered maps, one of mapping
  rules and one of mapping configurations. It supports create, read, update
  with a partial record, and delete. It can also find the default
  configuration, and it seeds one configuration and three rules when it is
  built. Module `JsMap` models a JavaScript `Map` with its insertion order.
  Module `Schema` holds the records and the spread-merge of a partial update.

Nullable or optional columns (`caseSensitive`, `isActive`, `isDefault`,
`description`, …) are `Option`s, and JavaScript truthiness of a nullable
boolean is `Schema.Truthy`. A partial update is a record of `Option`s:
`Some(None)` means a nullable field explicitly set to `null`.

The platform's NFC normalisation and `toLowerCase` are parameters
(`nfc`, `lower: string -> string`) on which nothing is assumed. A lemma that
needs a property of NFC states that property as its own precondition.

The normalisation is **not idempotent**. The function's name,
`normalizeGujaratiText`, suggests otherwise, and `convertText` applies it again
"to ensure proper character sequences" (`client/src/lib/mapping-utils.ts:41`).
The model follows the code: in "િકત" the i-matra
is moved past ક, giving "કિત", and a second run moves it past ત, giving "કતિ".
`TextUtils.NormalizeNotIdempotent` proves this for every pair of consonants.

## Model

| member | source | states |
|---|---|---|
| TextUtils.Lookup | shared/text-utils.ts:11-23 | a found vowel belongs to an entry with that key; nothing is found exactly when no entry has the key |
| TextUtils.VowelCombinationsWellFormed | shared/text-utils.ts:11-23 | every key is અ followed by a vowel sign, and every value is an independent vowel other than અ |
| TextUtils.VowelCombinationsDistinct | shared/text-utils.ts:11-23 | no two entries share a key |
| TextUtils.LookupEntry | shared/text-utils.ts:11-23 | looking up any entry's key yields that entry's vowel |
| TextUtils.IMatraPairNotCombined | shared/text-utils.ts:13 | અ followed by the i-matra is not combined (the disabled entry) |
| TextUtils.CombineShape | shared/text-utils.ts:11-23 | a pair that combines is અ plus a vowel sign, and it becomes an independent vowel other than અ |
| TextUtils.ReplacePairRemovesAll | shared/text-utils.ts:31 | after `replaceAll` of a two-code-point pattern by a different code point, no occurrence of the pattern is left |
| TextUtils.ReplaceThenCombine | shared/text-utils.ts:30-32 | one `replaceAll` with the first entry, then the scan with the remaining entries, equals one left-to-right scan with the whole table |
| TextUtils.CombineVowelPairs | shared/text-utils.ts:30-32 | the loop of `replaceAll` calls in table order computes the left-to-right combination scan |
| TextUtils.CombineLeavesNoKey | shared/text-utils.ts:30-32 | no two adjacent code points of the output form a key of the table |
| TextUtils.CombineCount | shared/text-utils.ts:30-32 | each key occurrence shortens the text by exactly one code point |
| TextUtils.IMatraSurvivesCombination | shared/text-utils.ts:13 | the combination pass never adds or removes an i-matra |
| TextUtils.CombineIdentityWithoutA | shared/text-utils.ts:30-32 | text without અ is unchanged by the combination pass |
| TextUtils.FirstConsonantSpec | shared/text-utils.ts:44-57 | the forward search returns the first consonant, and returns nothing exactly when there is no consonant |
| TextUtils.RelocatePermutes | shared/text-utils.ts:34-64 | the relocation pass keeps the length and the multiset of code points |
| TextUtils.RelocateKeepsOrder | shared/text-utils.ts:34-64 | with the i-matras deleted, the text before and after relocation is the same |
| TextUtils.RelocateToFirstConsonant | shared/text-utils.ts:41-56 | an i-matra is emitted right after the first consonant that follows it, with everything between copied in order |
| TextUtils.RelocateStaysWithoutConsonant | shared/text-utils.ts:58-60 | an i-matra with no later consonant stays in place |
| TextUtils.RelocateWithoutConsonant | shared/text-utils.ts:38-64 | text without consonants is unchanged by the relocation pass |
| TextUtils.RelocateIdentityWithoutIMatra | shared/text-utils.ts:38-64 | text without an i-matra is unchanged by the relocation pass |
| TextUtils.MoveIMatra | shared/text-utils.ts:41-60 | the i-matra branch emits what the relocation function emits there, and continues after the consonant or after the i-matra |
| TextUtils.RelocateIMatra | shared/text-utils.ts:35-64 | the relocation loop computes the relocation function |
| TextUtils.Repair | shared/text-utils.ts:67-129 | the repair pass never lengthens the text |
| TextUtils.RepairCollapsesHalant | shared/text-utils.ts:77-81 | consonant, halant, then a vowel sign other than the halant becomes the bare consonant |
| TextUtils.RepairSwapsIMatra | shared/text-utils.ts:92-96 | an i-matra directly before a consonant is emitted after it |
| TextUtils.RepairPairPermutes | shared/text-utils.ts:84-114 | a pair the repair pass handles, away from અ, is only reordered |
| TextUtils.RepairPermutesWithoutHalantOrA | shared/text-utils.ts:67-129 | without halant and without અ the repair pass is a permutation |
| TextUtils.RepairKeepsOthers | shared/text-utils.ts:67-129 | on any text, each code point that is neither an independent vowel nor a vowel sign (consonants, digits, Latin, anything outside the script) occurs as often after the repair pass as before: only vowels and vowel signs, the halant among them, are ever dropped or merged |
| TextUtils.RepairIdentityOutsideScript | shared/text-utils.ts:67-129 | text with no code point in U+0A85..U+0ACD is unchanged by the repair pass |
| TextUtils.RepairAt | shared/text-utils.ts:70-128 | one loop iteration emits what the repair function emits at that index and consumes at least one and at most three code points |
| TextUtils.RepairSequence | shared/text-utils.ts:67-129 | the repair loop computes the repair function |
| TextUtils.NormalizeGujaratiText | shared/text-utils.ts:25-137 | the method computes NFC, combination, relocation, repair, combination, NFC |
| TextUtils.NormalizeOutsideScript | shared/text-utils.ts:25-137 | text with nothing in U+0A85..U+0ACD after NFC is only NFC-normalised, twice |
| TextUtils.NormalizeLeavesNoKey | shared/text-utils.ts:131-136 | when NFC creates no key pair, no key of the table is left in the result |
| TextUtils.NormalizeCombinesPair | shared/text-utils.ts:12-22 | અ followed by the sign of any active entry normalises to that entry's vowel |
| TextUtils.NormalizeMovesIMatra | shared/text-utils.ts:34-64 | an i-matra typed before a consonant ends up after it |
| TextUtils.NormalizeFirstRun | shared/text-utils.ts:34-64 | i-matra, consonant, consonant normalises to consonant, i-matra, consonant |
| TextUtils.NormalizeSecondRun | shared/text-utils.ts:34-64 | consonant, i-matra, consonant normalises to consonant, consonant, i-matra |
| TextUtils.NormalizeNotIdempotent | shared/text-utils.ts:25-137 | normalising the result of a normalisation can change it again |
| JsString.TrimStartSuffix | client/src/lib/mapping-utils.ts:48 | `trimStart` keeps a suffix of the text |
| JsString.TrimEndPrefix | client/src/lib/mapping-utils.ts:48 | `trimEnd` keeps a prefix of the text |
| JsString.TrimEmpty | client/src/lib/mapping-utils.ts:48 | the trimmed text is empty exactly when the text is all whitespace |
| JsString.TrimIdempotent | client/src/lib/mapping-utils.ts:48 | trimming twice is trimming once |
| JsString.TrimPadded | client/src/lib/mapping-utils.ts:80 | trimming a trimmed text with whitespace added on both sides gives that text back |
| JsString.SplitCount | client/src/lib/mapping-utils.ts:49 | `split` gives one more piece than there are separators |
| JsString.SplitPieces | client/src/lib/mapping-utils.ts:49 | no piece contains the separator |
| JsString.SplitJoin | client/src/lib/mapping-utils.ts:49 | joining the pieces with the separator gives the text back |
| JsString.JoinSplit | client/src/lib/mapping-utils.ts:78 | splitting a join of separator-free pieces gives the pieces back |
| JsString.SplitWithoutSeparator | client/src/lib/mapping-utils.ts:80 | a text without the separator splits into itself |
| JsString.SplitOnWhitespaceCount | client/src/lib/mapping-utils.ts:48 | `split(/\s+/)` gives one more piece than there are whitespace runs |
| JsString.TrimKeepsWords | client/src/lib/mapping-utils.ts:48 | trimming does not change the number of word starts |
| JsString.SplitTrimmedCountsWords | client/src/lib/mapping-utils.ts:48 | splitting the trimmed non-blank text on whitespace gives one piece per word |
| JsString.WordStartsWhitespace | client/src/lib/mapping-utils.ts:48 | all-whitespace text has no words |
| JsString.Utf16Length | client/src/lib/mapping-utils.ts:47 | the UTF-16 length lies between the number of code points and twice that |
| JsString.Utf16LengthBmp | client/src/lib/mapping-utils.ts:47 | for text in the Basic Multilingual Plane the UTF-16 length is the number of code points |
| MappingUtils.ActiveRulesMembers | client/src/lib/mapping-utils.ts:5 | a rule survives the filter exactly when it is in the list and its `isActive` is true |
| MappingUtils.ActiveRulesConcat | client/src/lib/mapping-utils.ts:5 | the filter keeps list order |
| MappingUtils.CaseSensitiveNeedsOneCodePoint | client/src/lib/mapping-utils.ts:22-23 | a case-sensitive rule whose source is not one code point never matches |
| MappingUtils.NullCaseSensitivityIsFalse | client/src/lib/mapping-utils.ts:22-26 | a rule whose `caseSensitive` is `null` matches exactly the code points it matches when `caseSensitive` is false |
| MappingUtils.SensitiveMatchIsInsensitiveMatch | client/src/lib/mapping-utils.ts:22-26 | a code point the case-sensitive form of a rule matches is also matched by its case-insensitive form |
| MappingUtils.FirstMatchSpec | client/src/lib/mapping-utils.ts:19-33 | the search finds the first matching rule, and finds none only when no rule matches |
| MappingUtils.FirstMatchIs | client/src/lib/mapping-utils.ts:19-33 | a matching rule with no matching rule before it is the one used |
| MappingUtils.LaterRulesIgnored | client/src/lib/mapping-utils.ts:28-32 | once a rule matches, the rules after it do not affect the output |
| MappingUtils.SubstituteConcat | client/src/lib/mapping-utils.ts:10-39 | conversion works code point by code point, so an emitted target is never converted again |
| MappingUtils.SubstituteNoRules | client/src/lib/mapping-utils.ts:35-38 | with no rules every code point is kept |
| MappingUtils.ConvertChar | client/src/lib/mapping-utils.ts:16-38 | the inner loop emits the first matching rule's target, or the code point itself |
| MappingUtils.ConvertText | client/src/lib/mapping-utils.ts:4-43 | the method computes normalise, per-code-point substitution with the active rules, normalise |
| MappingUtils.ConvertWithoutActiveRules | client/src/lib/mapping-utils.ts:4-43 | with no active rule the conversion is normalisation applied twice |
| MappingUtils.InactiveRuleIrrelevant | client/src/lib/mapping-utils.ts:5 | an inactive rule, anywhere in the list, never changes the output |
| MappingUtils.GetTextStatistics | client/src/lib/mapping-utils.ts:45-51 | the line count is one more than the number of line feeds; the word count is the number of words, and zero exactly when the text is blank; the character count is at least the number of code points, and equal to it when every code point lies in the Basic Multilingual Plane, as Gujarati does |
| MappingUtils.NonBlankMembers | client/src/lib/mapping-utils.ts:78 | the blank-line filter keeps exactly the lines whose trimmed form is not empty |
| MappingUtils.NonBlankConcat | client/src/lib/mapping-utils.ts:78 | the filter keeps line order |
| MappingUtils.NonBlankDropsBlank | client/src/lib/mapping-utils.ts:78 | a blank line, wherever it stands, can be removed without changing the filtered lines |
| MappingUtils.LineRulePadded | client/src/lib/mapping-utils.ts:80 | whitespace around either field is trimmed away: a padded line `source,target` is still read as that rule, case-sensitive |
| MappingUtils.ParseCsv | client/src/lib/mapping-utils.ts:77-83 | one rule per non-blank line after the header: rule k is read from the non-blank line k + 1 |
| MappingUtils.Complete | client/src/lib/mapping-utils.ts:89 | the TXT filter keeps a rule exactly when it is in the list and its source and target are both non-empty; it never adds rules |
| MappingUtils.CompleteConcat | client/src/lib/mapping-utils.ts:89 | the TXT filter keeps rule order |
| MappingUtils.ParseTxt | client/src/lib/mapping-utils.ts:84-90 | a rule is imported exactly when it is read from some non-blank line and has a non-empty source and target |
| MappingUtils.LineRuleOfPair | client/src/lib/mapping-utils.ts:80 | a line `source,target` of clean fields is read back as that rule, case-sensitive |
| MappingUtils.LineRulesOfPairs | client/src/lib/mapping-utils.ts:79-82 | rendered rule lines are non-blank and are read back as their rules |
| MappingUtils.CsvRoundTrip | client/src/lib/mapping-utils.ts:77-83 | importing a rendered CSV file gives back its rules |
| MappingUtils.TxtRoundTrip | client/src/lib/mapping-utils.ts:84-90 | importing a rendered TXT file gives back its rules |
| MappingUtils.ImportCsvFile | client/src/lib/mapping-utils.ts:73-83 | a file whose lower-cased name ends in `.csv` and that holds a rendered CSV text is imported as its rules; the `.json` branch is not taken |
| MappingUtils.ImportTxtFile | client/src/lib/mapping-utils.ts:73-90 | a file whose lower-cased name ends in `.txt` and that holds a rendered TXT text is imported as its rules; neither the `.json` nor the `.csv` branch is taken |
| MappingUtils.CompleteKeepsPairs | client/src/lib/mapping-utils.ts:89 | rules whose two sides are non-empty all pass the TXT filter |
| Schema.OverrideThen | server/storage.ts:87 | overriding a field twice is overriding it once with the later supplied value |
| Schema.OverrideIdempotent | server/storage.ts:87 | overriding a field again with the same value changes nothing |
| Schema.RuleNoChange | server/storage.ts:87 | merging an empty update into a rule leaves it as it is |
| Schema.RulePatchIdempotent | server/storage.ts:87 | merging the same update into a rule twice is merging it once |
| Schema.RulePatchThen | server/storage.ts:87 | merging two updates into a rule in turn is merging one update in which the second one's fields win |
| Schema.ConfigurationNoChange | server/storage.ts:116 | merging an empty update into a configuration leaves it as it is |
| Schema.ConfigurationPatchIdempotent | server/storage.ts:116 | merging the same update into a configuration twice is merging it once |
| Schema.ConfigurationPatchThen | server/storage.ts:116 | merging two updates into a configuration in turn is merging one update in which the second one's fields win |
| Schema.InsertMappingRule.WithId | server/storage.ts:78 | the stored rule has the new id and otherwise the inserted fields |
| Schema.InsertMappingConfiguration.WithId | server/storage.ts:107 | the stored configuration has the new id and otherwise the inserted fields |
| JsMap.GetListed | server/storage.ts:73 | `get` finds a value under a key exactly when the listing shows that value at the key's position |
| JsMap.OrderedMap.Delete | server/storage.ts:93 | `delete` removes exactly that key's entry and that key from the order |
| JsMap.OrderedMap.Values | server/storage.ts:69 | the listing has one value per key, and the value at each position is the entry of the key there |
| JsMap.Empty | server/storage.ts:26-27 | a new map is valid and lists nothing |
| JsMap.SetValid | server/storage.ts:79 | `set` keeps the map valid; `get` sees the new value and every other entry unchanged |
| JsMap.SetFreshAppends | server/storage.ts:79 | setting a new key appends its value to the listing |
| JsMap.SetExistingInPlace | server/storage.ts:88 | setting an existing key replaces its value where it stands in the listing |
| JsMap.SetExistingListed | server/storage.ts:88 | after setting an existing key, the key order is unchanged and the listing shows the new value at that key and the old values elsewhere |
| JsMap.DeleteValid | server/storage.ts:93 | `delete` keeps the map valid and removes exactly that key |
| JsMap.DeleteAt | server/storage.ts:93 | deleting the key at a position drops that value and keeps the others in order |
| JsMap.DeleteListed | server/storage.ts:93 | deleting a present key drops its value from the listing and keeps the others in order |
| JsMap.DeleteAbsent | server/storage.ts:93 | deleting an absent key changes nothing |
| Storage.MemStorage.constructor | server/storage.ts:25-31 | a new store lists exactly the default configuration and the three default rules in order, and the default configuration is found |
| Storage.MemStorage.InitializeDefaults | server/storage.ts:33-65 | the default configuration and then the three default rules are added under the drawn ids |
| Storage.MemStorage.CreateDefaultRules | server/storage.ts:44-64 | the three default rules are added in order under the drawn ids; the configurations are unchanged |
| Storage.MemStorage.GetMappingRules | server/storage.ts:68-70 | one rule per stored id, in insertion order; each listed rule carries the id at its position and is what looking that id up gives |
| Storage.MemStorage.GetMappingRule | server/storage.ts:72-74 | a rule is found exactly when the id is stored |
| Storage.MemStorage.GetMappingRuleListed | server/storage.ts:68-74 | looking an id up gives a rule exactly when that rule is listed and carries that id |
| Storage.MemStorage.CreateMappingRule | server/storage.ts:76-81 | the rule is stored under the fresh id and appended to the listing; nothing else changes |
| Storage.MemStorage.UpdateMappingRule | server/storage.ts:83-90 | an unknown id changes nothing and gives no result; a known rule is replaced in place by the merge, and every other rule is unchanged |
| Storage.MemStorage.DeleteMappingRule | server/storage.ts:92-94 | the result says whether the id was present; afterwards it is absent, and its rule is dropped from the listing with the rest kept in order |
| Storage.MemStorage.GetMappingConfigurations | server/storage.ts:97-99 | one configuration per stored id, in insertion order; each listed configuration carries the id at its position and is what looking that id up gives |
| Storage.MemStorage.GetMappingConfiguration | server/storage.ts:101-103 | a configuration is found exactly when the id is stored |
| Storage.MemStorage.GetMappingConfigurationListed | server/storage.ts:97-103 | looking an id up gives a configuration exactly when that configuration is listed and carries that id |
| Storage.MemStorage.CreateMappingConfiguration | server/storage.ts:105-110 | the configuration is stored under the fresh id and appended to the listing; nothing else changes |
| Storage.MemStorage.UpdateMappingConfiguration | server/storage.ts:112-119 | an unknown id changes nothing and gives no result; a known configuration is replaced in place by the merge, and every other one is unchanged |
| Storage.MemStorage.DeleteMappingConfiguration | server/storage.ts:121-123 | the result says whether the id was present; afterwards it is absent, and its configuration is dropped from the listing with the rest kept in order |
| Storage.MemStorage.GetDefaultConfiguration | server/storage.ts:125-127 | the result is the first listed configuration whose `isDefault` is true, and nothing when no listed configuration is marked |
| Storage.FindDefaultSpec | server/storage.ts:125-127 | the default configuration is the first, in insertion order, whose `isDefault` is true; none is found when no configuration is marked |
| Storage.FindDefaultPrefix | server/storage.ts:125-127 | configurations added after a default one do not change which one is found |
| Storage.DefaultRulesListed | server/storage.ts:44-64 | the seeded rule table lists s, a and k in that order |
| Storage.DefaultRulesImage | server/storage.ts:44-64 | under the seeded rules "s" and "k" become ક, "a" becomes અ, and every other code point is kept |
| Storage.AllActive | server/storage.ts:48-63 | filtering rules that are all active keeps every one of them |

## Left out

- NFC normalisation and `toLowerCase` are platform calls. They are parameters
  of the members that use them, and the model assumes nothing about them.
  The lemmas that need NFC to behave in some way state that as a precondition.
- `TextUtils.NormalizeLeavesNoKey` assumes that NFC never creates a pair that
  the table combines. The model does not include NFC's tables, so it cannot
  prove this.
- Strings are sequences of Unicode code points, as `Array.from` yields them.
  Lone surrogates cannot be represented. `length` counts UTF-16 code units
  (`JsString.Utf16Length`). A text containing a supplementary-plane code point
  has more UTF-16 units than code points.
- `parseImportFile`: the `FileReader` callback, the promise, the read error and
  `JSON.parse` are left out. A `.json` file yields its content unparsed
  (`MappingUtils.JsonContent`). Only the CSV and TXT parsing is modelled.
- `exportToFile` creates a browser download, so it is I/O. It is left out.
- `randomUUID` is replaced by id parameters, which the caller must supply
  fresh.
- All store operations are `async`. They are modelled as running one at a time
  to completion. In particular, the constructor does not await
  `initializeDefaults`, and the model runs it to completion inside the
  constructor.
- A partial update field that is present but explicitly `undefined` is
  modelled as absent. In JavaScript, such a spread overwrites the field with
  `undefined`, which reads as `null` for every purpose here.
- The `IStorage` interface is left out: `MemStorage` is its only
  implementation.
- The HTTP routes (`server/routes.ts`) and the React components are not part of
  this model. Neither is `clearAllMappingRules`, which those callers use:
  `MemStorage` does not define it.
- `TextUtils.MoveIMatra`, `TextUtils.RepairAt` and `MappingUtils.ConvertChar`
  are loop bodies pulled out of the source's loops into methods of their own.
  They keep the source's branches and loop structure. In the same way,
  `Storage.MemStorage.CreateDefaultRules` holds the last three calls of
  `initializeDefaults`.
