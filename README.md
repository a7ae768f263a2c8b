# hypherator: the dictionary compiler and the manifest bookkeeping, in Dafny

This project models three parts of the hypherator hyphenation library and its tools, and proves properties of the model.

- **The compiled dictionary** (`hyphen_dict.dfy`, module `HyphenDicts`). A `HyphenDict` level has four margins, a map from match key to `Rule`, a list of no-hyphen literals, a display hyphen and a `nextLevel` link. A `Rule` maps boundary offsets to `BreakRule`s, and a `BreakRule` carries a priority and an optional replacement (text, index, count). `HyphenDict` is a class whose methods update its fields in place. `Rule` and `BreakRule` are values. Java changes them in place through a local reference (`existingRule` in `insertRule`, `relevantBreak` in `addNormalRule`) and reads the change back through the map, but each changed object is reachable from exactly one map entry, so writing the new value back into that entry is equivalent.
- **The rule-file compiler.**
  - `rule_parser.dfy` (module `RuleParser`) models `addNormalRule`. It covers the two literal line fixes and the split at the first `/`. It also covers the digit-interleaved pattern, which the `StringBuilder` loop turns into a key and breaks, and the `/repl[,index,count]` suffix. That includes the region search loop, whose bound moves when the loop reassigns `replacementIndex`.
  - `dict_builder.dfy` (module `DictBuilder`) models `fromInputStream` over the file's lines: the encoding header, comments, margin directives, `NOHYPHEN`, `NEXTLEVEL` and pattern lines, and the base level synthesised when there is no `NEXTLEVEL`. It has two layers:
    - a value layer, where `Compile` returns the levels in chain order;
    - an object layer, where `FromLines`, `ReadLines` and friends build `nextLevel`-linked `HyphenDict` objects. These methods are proved to hold exactly the levels of the value layer.
- **The manifest bookkeeping of the tools** (`dictionaries_processor.dfy`, module `Manifest`). It holds the `HyphenData` records that become `all.json`:
  - the locale compatibility test;
  - `extractDefaultLocales`, which adds bare language codes, with Slovak standing in for Czech;
  - the record of a locale subdirectory, which replaces the records for the same locales;
  - the two manual records;
  - the sort by first location.

  The record list is a field of the `DictionariesProcessor` class, and its methods reassign it.

`java_strings.dfy` (module `JavaStrings`) writes out the Java library behaviour the core depends on:
- 32-bit `int` wrap-around;
- `String.trim`, `split` with a one-character separator (trailing empty strings are dropped), `indexOf`, `replace` and `startsWith`;
- `Integer.parseInt`, with an optional sign;
- `equalsIgnoreCase` against an ASCII literal;
- `compareTo`.

`results.dfy` holds `Option` and `Result`.

## Behaviour as written

The model follows the code where the code and the intent visible in the code itself differ.

- **The merge in `insertRule` keeps the stored break, whatever the priorities.** The comment at HyphenDict.java:24 and the `newPriority > oldPriority` test at :27 show that the higher priority is meant to win. But `BreakRule.equals` casts `this` instead of its argument, so it is true for every `BreakRule` argument. As a result the priority comparison in `insertRule` is never reached. This is modelled as written: `HyphenDicts.BreakRule.Equals` and `HyphenDicts.InsertedRules`.
- **The replacement region is not tested for exactly one break.** The exception "Multiple break rules within the same replacement region" at HyphenDictBuilder.java:164 shows that exactly one break in `[index - 1, index + count)` is meant. The loop instead stops looking for a second break at a bound recomputed from the reassigned index. That bound is `index - h + count`, where `h` is the first break found, and it never grows: it shrinks whenever `h > 0`. A second break between that bound and the original one is not detected. `RuleParser.ChosenBreak` states the rule as coded.
- **Base-level breaks have priority 1.** The base level gives each punctuation mark priority 1 on both sides, which is what the code requests: `"1-1"` and so on.

## Model

| member | source | states |
|---|---|---|
| `HyphenDicts.BreakRule.Equals` | hypherator/src/main/java/io/sevcik/hypherator/HyphenDict.java:104-109 | `equals` as written is true exactly when the argument is a BreakRule, whatever its fields |
| `HyphenDicts.InsertedRules` | hypherator/src/main/java/io/sevcik/hypherator/HyphenDict.java:16-38 | key set becomes old keys ∪ {match}; other keys unchanged; new key stored as is; for an existing key, offsets only the new rule has are added and every offset the stored rule has keeps its BreakRule (the stored break wins even at lower priority); the key-to-match invariant is preserved |
| `HyphenDicts.HyphenDict.constructor` | hypherator/src/main/java/io/sevcik/hypherator/HyphenDict.java:6-14 | a new level has margins 0, no rules, no no-hyphens, no hyphen and a null next level |
| `HyphenDicts.HyphenDict.InsertRule` | hypherator/src/main/java/io/sevcik/hypherator/HyphenDict.java:16-38 | the entry-by-entry merge loop leaves `rules` equal to `InsertedRules` of the old map, and changes no other field |
| `HyphenDicts.HyphenDict.InsertNoHyphen` | hypherator/src/main/java/io/sevcik/hypherator/HyphenDict.java:40-42 | appends at the end, keeping earlier entries, their order and duplicates |
| `HyphenDicts.PickOffset` | hypherator/src/main/java/io/sevcik/hypherator/HyphenDict.java:20 | the next entry of a HashMap iteration is some offset not yet visited, in an unspecified order |
| `JavaStrings.Wrap32` | hypherator/src/main/java/io/sevcik/hypherator/HyphenDictBuilder.java:156-166 | the int arithmetic of the region search stays in the 32-bit range and agrees with the unbounded result modulo 2^32 |
| `JavaStrings.IndexOf` | hypherator/src/main/java/io/sevcik/hypherator/HyphenDictBuilder.java:130-131 | `indexOf` of a present character is the position of its first occurrence |
| `JavaStrings.ReplaceAll` | hypherator-tools/src/main/java/io/sevcik/DictionariesProcessor.java:128 | `replace("_", "-")` keeps the length, turns every `_` into `-`, leaves other characters alone and leaves no `_` |
| `JavaStrings.Trim` | hypherator/src/main/java/io/sevcik/hypherator/HyphenDictBuilder.java:48 | trimming is empty exactly when every character is at most U+0020, otherwise starts and ends with a character above it, and is always the middle of the line between two ends of characters at most U+0020 |
| `JavaStrings.BlankIsTrimmedEmpty` | hypherator/src/main/java/io/sevcik/hypherator/HyphenDictBuilder.java:48 | `trim().isEmpty()` holds exactly for lines of characters at most U+0020 |
| `JavaStrings.Fields` | hypherator/src/main/java/io/sevcik/hypherator/HyphenDictBuilder.java:148 | at least one piece, none holding the separator, the whole string when it has none |
| `JavaStrings.JoinFields` | hypherator/src/main/java/io/sevcik/hypherator/HyphenDictBuilder.java:148 | joining the pieces with the separator gives back the string |
| `JavaStrings.DropTrailingEmpty` | hypherator/src/main/java/io/sevcik/hypherator/HyphenDictBuilder.java:148 | a prefix of the pieces that does not end in an empty piece, with only empty pieces dropped |
| `JavaStrings.Split` | hypherator/src/main/java/io/sevcik/hypherator/HyphenDictBuilder.java:148 | `split` returns a separator-free string whole; otherwise its pieces never end in an empty one, and none holds the separator |
| `JavaStrings.SplitDropsTrailingEmpty` | hypherator/src/main/java/io/sevcik/hypherator/HyphenDictBuilder.java:148 | `split` keeps the fields in order and drops only trailing empty ones |
| `JavaStrings.ParseInt` | hypherator/src/main/java/io/sevcik/hypherator/HyphenDictBuilder.java:151-152 | a parsed value is an int, and the string it came from is an optional sign followed by digits only |
| `JavaStrings.ParseIntSignedDigits` | hypherator/src/main/java/io/sevcik/hypherator/HyphenDictBuilder.java:151-152 | a sign (none, `+` or `-`) followed by digits parses exactly when there is at least one digit and the signed value fits an int, and then gives that value (so `+2`, `02` and `-0` are accepted) |
| `JavaStrings.ParseIntOfToString` | hypherator/src/main/java/io/sevcik/hypherator/HyphenDictBuilder.java:52 | `parseInt` reads back every int written in decimal |
| `JavaStrings.LessEqTotal` | hypherator-tools/src/main/java/io/sevcik/DictionariesProcessor.java:375 | `compareTo` orders any two strings |
| `JavaStrings.LessEqTransitive` | hypherator-tools/src/main/java/io/sevcik/DictionariesProcessor.java:375 | the `compareTo` order is transitive, so sorting by it is well defined |
| `RuleParser.FixBrokenLine` | hypherator/src/main/java/io/sevcik/hypherator/HyphenDictBuilder.java:119-126 | the two known broken lines become their fixed forms; every other line is unchanged |
| `RuleParser.PatternPart` | hypherator/src/main/java/io/sevcik/hypherator/HyphenDictBuilder.java:129-132 | the pattern is a prefix of the line that holds no `/` and is either the whole line or is followed by a `/`, i.e. the line before its first `/` |
| `RuleParser.Letters` | hypherator/src/main/java/io/sevcik/hypherator/HyphenDictBuilder.java:134-145 | the key has no digits and is no longer than the token |
| `RuleParser.DigitBreaks` | hypherator/src/main/java/io/sevcik/hypherator/HyphenDictBuilder.java:135-142 | every break lies at an offset in 0..\|key\| and is a fresh BreakRule with priority 0..9 |
| `RuleParser.LettersOfChar` | hypherator/src/main/java/io/sevcik/hypherator/HyphenDictBuilder.java:135-141 | one character of the token: a digit is dropped from the key, any other character is kept |
| `RuleParser.LettersAppend` | hypherator/src/main/java/io/sevcik/hypherator/HyphenDictBuilder.java:134-142 | the literals keep their order: removing digits commutes with concatenation |
| `RuleParser.KeyKeepsAnchor` | hypherator/src/main/java/io/sevcik/hypherator/HyphenDictBuilder.java:134-145 | a leading `.` anchor is kept at the start of the key |
| `RuleParser.DigitBreakAt` | hypherator/src/main/java/io/sevcik/hypherator/HyphenDictBuilder.java:136-138 | a digit with no later digit at the same offset sets the break at its offset (the number of literals before it) to its value, so a later digit overwrites an earlier one |
| `RuleParser.DigitBreakSource` | hypherator/src/main/java/io/sevcik/hypherator/HyphenDictBuilder.java:136-138 | every break comes from a digit at that offset |
| `RuleParser.SplitPattern` | hypherator/src/main/java/io/sevcik/hypherator/HyphenDictBuilder.java:134-145 | the StringBuilder loop computes exactly the key and the breaks above |
| `RuleParser.FirstKeyIn` | hypherator/src/main/java/io/sevcik/hypherator/HyphenDictBuilder.java:159-162 | a found offset lies in the range and has a break |
| `RuleParser.FirstKeyInIsFirst` | hypherator/src/main/java/io/sevcik/hypherator/HyphenDictBuilder.java:159-162 | no break precedes the one found, and nothing is found exactly when the range has no break |
| `RuleParser.RegionBreak` | hypherator/src/main/java/io/sevcik/hypherator/HyphenDictBuilder.java:154-169 | a chosen break lies in `[index-1, index+count)` (32-bit) with stored index `index - offset`; failure is only "none" or "multiple" |
| `RuleParser.RegionBreakEmpty` | hypherator/src/main/java/io/sevcik/hypherator/HyphenDictBuilder.java:159-169 | the null-break failure happens exactly when the initial region has no break |
| `RuleParser.RegionBreakIsChosen` | hypherator/src/main/java/io/sevcik/hypherator/HyphenDictBuilder.java:159-167 | the search succeeds iff some break is "chosen" (first in region, no other below the shrunken bound), and then that unique break is returned |
| `RuleParser.ResultIsChosen` | hypherator/src/main/java/io/sevcik/hypherator/HyphenDictBuilder.java:159-167 | a returned break satisfies the chosen-break rule |
| `RuleParser.ChosenIsResult` | hypherator/src/main/java/io/sevcik/hypherator/HyphenDictBuilder.java:159-167 | a break satisfying the chosen-break rule is the one returned |
| `RuleParser.ChosenIsFirst` | hypherator/src/main/java/io/sevcik/hypherator/HyphenDictBuilder.java:159-165 | a chosen break is the first break of the initial region |
| `RuleParser.ScanAfterFirst` | hypherator/src/main/java/io/sevcik/hypherator/HyphenDictBuilder.java:159-164 | after the first hit the loop only looks for a second break below the recomputed bound |
| `RuleParser.ScanBeforeFirst` | hypherator/src/main/java/io/sevcik/hypherator/HyphenDictBuilder.java:159-167 | before the first hit the loop finds the first break of its range, then behaves as above |
| `RuleParser.ScanIsRegionBreak` | hypherator/src/main/java/io/sevcik/hypherator/HyphenDictBuilder.java:159-167 | the loop as written, with its moving bound, equals the reference region search |
| `RuleParser.FindRegionBreak` | hypherator/src/main/java/io/sevcik/hypherator/HyphenDictBuilder.java:154-169 | the imperative loop that reassigns `replacementIndex` and `relevantBreak` returns the reference region search |
| `RuleParser.StoredIndexAtMostOne` | hypherator/src/main/java/io/sevcik/hypherator/HyphenDictBuilder.java:159-170 | without overflow of `index + count` the stored index is `index - offset` and is at most 1 |
| `RuleParser.StoredIndexWrapsOnOverflow` | hypherator/src/main/java/io/sevcik/hypherator/HyphenDictBuilder.java:159-166 | with 32-bit overflow a search succeeds with stored index `INT_MAX` |
| `RuleParser.AnchoredIndex` | hypherator/src/main/java/io/sevcik/hypherator/HyphenDictBuilder.java:155-156 | a `.`-anchored key moves the index up by one (32-bit), wrapping to `Integer.MIN_VALUE` at `Integer.MAX_VALUE`; any other key leaves it |
| `RuleParser.ReplacedAnnotatesOneBreak` | hypherator/src/main/java/io/sevcik/hypherator/HyphenDictBuilder.java:147-184 | a replacement suffix adds and removes no break, changes no priority, and changes at most one break |
| `RuleParser.ReplacementForms` | hypherator/src/main/java/io/sevcik/hypherator/HyphenDictBuilder.java:148-183 | one field: succeeds iff offset 1 has a break, which gets the text, index 1 and count \|key\|; three fields with a bad number: NumberFormatException; three fields with two parsed numbers: the region search with that text, index and count; any other field count: the "do handle" exception |
| `RuleParser.ThreeFieldForm` | hypherator/src/main/java/io/sevcik/hypherator/HyphenDictBuilder.java:149-171 | three fields succeed iff a break is chosen for the anchored index, and then only that break changes: it gets the text, the count and the stored index `index - h` |
| `RuleParser.NormalRuleShape` | hypherator/src/main/java/io/sevcik/hypherator/HyphenDictBuilder.java:117-186 | the rule's key is the pattern without digits, its breaks are the digits' offsets with their priorities, at most one carries a replacement, and only a line with `/` can fail |
| `RuleParser.BuildNormalRule` | hypherator/src/main/java/io/sevcik/hypherator/HyphenDictBuilder.java:117-184 | the imperative fix-up, split, StringBuilder loop and replacement branch compute `NormalRule` |
| `RuleParser.ApplyReplacement` | hypherator/src/main/java/io/sevcik/hypherator/HyphenDictBuilder.java:147-184 | the replacement branch computes `Replaced`, including each exception |
| `RuleParser.AddNormalRule` | hypherator/src/main/java/io/sevcik/hypherator/HyphenDictBuilder.java:117-187 | on success the rule is merged with `insertRule`; when the line throws the dict is unchanged |
| `DictBuilder.DefaultNoHyphenList` | hypherator/src/main/java/io/sevcik/hypherator/HyphenDictBuilder.java:20 | `split(",")` of the default literal is `'`, `–`, `’`, `-`, in that order |
| `DictBuilder.SplitFour` | hypherator/src/main/java/io/sevcik/hypherator/HyphenDictBuilder.java:20 | four comma-separated characters split into those four one-character strings |
| `DictBuilder.Step` | hypherator/src/main/java/io/sevcik/hypherator/HyphenDictBuilder.java:47-86 | only the well-formedness invariant: one pass of the loop never leaves the chain without a current level (what a pass does is stated by the line lemmas below) |
| `DictBuilder.Run` | hypherator/src/main/java/io/sevcik/hypherator/HyphenDictBuilder.java:47-86 | only the well-formedness invariant: a run that does not abort leaves a current level (its behaviour is stated by RunFails, RunLevels, RunSkipsIgnored, RunCollectsNoHyphens and PatternLineStep) |
| `DictBuilder.KeywordNotIgnored` | hypherator/src/main/java/io/sevcik/hypherator/HyphenDictBuilder.java:48-75 | a line starting with a directive keyword is neither a comment nor blank |
| `DictBuilder.KeywordsExclusive` | hypherator/src/main/java/io/sevcik/hypherator/HyphenDictBuilder.java:48-79 | a line starts with at most one directive keyword |
| `DictBuilder.ParseLineByKeyword` | hypherator/src/main/java/io/sevcik/hypherator/HyphenDictBuilder.java:48-85 | a line is skipped iff it is a comment or blank, takes a margin branch iff it starts with that margin's keyword, is NOHYPHEN or NEXTLEVEL iff it starts with that keyword, and is a pattern, parsed by `addNormalRule`, iff it is significant and starts with none of the keywords |
| `DictBuilder.PatternLineStep` | hypherator/src/main/java/io/sevcik/hypherator/HyphenDictBuilder.java:81-85 | a pattern line inserts its parsed rule into the current level's rules; a rule that throws leaves the level unchanged |
| `DictBuilder.LineAborts` | hypherator/src/main/java/io/sevcik/hypherator/HyphenDictBuilder.java:51-85 | a line aborts the load iff it is a margin directive whose value `parseInt` rejects; a failing pattern line is caught and skipped |
| `DictBuilder.NextLevelOpensLevel` | hypherator/src/main/java/io/sevcik/hypherator/HyphenDictBuilder.java:75-79 | only a NEXTLEVEL line opens a fresh level |
| `DictBuilder.NoHyphenAppends` | hypherator/src/main/java/io/sevcik/hypherator/HyphenDictBuilder.java:67-74 | NOHYPHEN appends its items in order to the current level, and no other line touches that list |
| `DictBuilder.MarginSets` | hypherator/src/main/java/io/sevcik/hypherator/HyphenDictBuilder.java:51-66 | a margin directive with an int value sets that margin of the current level and nothing else |
| `DictBuilder.Significant` | hypherator/src/main/java/io/sevcik/hypherator/HyphenDictBuilder.java:48-49 | a line is kept exactly when it is in the file and is neither a comment nor blank |
| `DictBuilder.SignificantAppend` | hypherator/src/main/java/io/sevcik/hypherator/HyphenDictBuilder.java:47-49 | the kept lines stay in file order: those of each part of the file, in turn |
| `DictBuilder.RunFails` | hypherator/src/main/java/io/sevcik/hypherator/HyphenDictBuilder.java:47-86 | the loop aborts iff some line is a bad margin directive, and it reports the first one |
| `DictBuilder.RunLevels` | hypherator/src/main/java/io/sevcik/hypherator/HyphenDictBuilder.java:75-79 | one level per NEXTLEVEL line is added, and a level that has been left is never changed again |
| `DictBuilder.RunSkipsIgnored` | hypherator/src/main/java/io/sevcik/hypherator/HyphenDictBuilder.java:48-49 | comments and blank lines have no effect on the result |
| `DictBuilder.RunCollectsNoHyphens` | hypherator/src/main/java/io/sevcik/hypherator/HyphenDictBuilder.java:67-74 | within one level the NOHYPHEN items accumulate in file order |
| `DictBuilder.CompileHeader` | hypherator/src/main/java/io/sevcik/hypherator/HyphenDictBuilder.java:42-45 | the load fails on its header exactly when the first line is missing or is not UTF8/UTF-8 in any case |
| `DictBuilder.CompileFails` | hypherator/src/main/java/io/sevcik/hypherator/HyphenDictBuilder.java:42-86 | after a good header the load fails exactly when a later line is a bad margin directive |
| `DictBuilder.CompileShape` | hypherator/src/main/java/io/sevcik/hypherator/HyphenDictBuilder.java:88-106 | without NEXTLEVEL the result is the base level for the level the line loop built, followed by that level; with n NEXTLEVEL lines it is the n + 1 parsed levels and no base level |
| `DictBuilder.BaseRuleParses` | hypherator/src/main/java/io/sevcik/hypherator/HyphenDictBuilder.java:98-101 | the line `1c1` gives the rule `c` with priority-1 breaks at offsets 0 and 1 |
| `DictBuilder.BaseLevelFacts` | hypherator/src/main/java/io/sevcik/hypherator/HyphenDictBuilder.java:88-101 | base margins copy the hyphen margins, compound margins fall back to the hyphen margin and then to 3, the no-hyphens are the four defaults in order, and there is one rule per punctuation mark |
| `DictBuilder.AddHyphen` | hypherator/src/main/java/io/sevcik/hypherator/HyphenDictBuilder.java:113-115 | sets the hyphen and changes nothing else of the level |
| `DictBuilder.InsertNoHyphens` | hypherator/src/main/java/io/sevcik/hypherator/HyphenDictBuilder.java:70-72 | the insertNoHyphen loop appends the items in order |
| `DictBuilder.SetMarginOf` | hypherator/src/main/java/io/sevcik/hypherator/HyphenDictBuilder.java:51-66 | the assignment sets exactly the chosen margin |
| `DictBuilder.ApplyDirective` | hypherator/src/main/java/io/sevcik/hypherator/HyphenDictBuilder.java:51-85 | the object updates of a parsed line match the value-level effect; NEXTLEVEL links a fresh empty level and returns it |
| `DictBuilder.ReadLine` | hypherator/src/main/java/io/sevcik/hypherator/HyphenDictBuilder.java:48-85 | one loop body over `workingDict` makes the same change as one value-level step |
| `DictBuilder.AddBaseRule` | hypherator/src/main/java/io/sevcik/hypherator/HyphenDictBuilder.java:98-101 | `addNormalRule(base, "1c1")` merges the rule `BreakAround(c)` |
| `DictBuilder.AddBaseRules` | hypherator/src/main/java/io/sevcik/hypherator/HyphenDictBuilder.java:98-101 | the four calls leave exactly the four punctuation rules |
| `DictBuilder.NewBaseLevel` | hypherator/src/main/java/io/sevcik/hypherator/HyphenDictBuilder.java:89-104 | a fresh base level holding `BaseLevel` of the parsed level, linked in front of it |
| `DictBuilder.ReadLines` | hypherator/src/main/java/io/sevcik/hypherator/HyphenDictBuilder.java:40-86 | the line loop fails iff the value-level run fails, with the same error; otherwise the `nextLevel` chain from `dict` holds the run's levels and `level` counts the NEXTLEVEL lines |
| `DictBuilder.FromLines` | hypherator/src/main/java/io/sevcik/hypherator/HyphenDictBuilder.java:34-111 | `fromInputStream` fails iff `Compile` does, with the same error; otherwise the returned dict heads a `nextLevel` chain holding exactly the compiled levels |
| `Manifest.IsCompatibleLocale` | hypherator-tools/src/main/java/io/sevcik/DictionariesProcessor.java:28-39 | the early-exit loop returns false iff the list names cs-CZ, pt-PT, eo or ro-RO |
| `Manifest.FieldsAllEmpty` | hypherator-tools/src/main/java/io/sevcik/DictionariesProcessor.java:348 | every field is empty exactly when the string consists of separators only |
| `Manifest.LanguageCodeIsPrefix` | hypherator-tools/src/main/java/io/sevcik/DictionariesProcessor.java:347-348 | `split("-")[0]` of a regional locale throws iff it is all dashes, and otherwise is the text before the first dash |
| `Manifest.BareInMembers` | hypherator-tools/src/main/java/io/sevcik/DictionariesProcessor.java:335-339 | the locales of one record collected are exactly those without a dash |
| `Manifest.BareLocalesMembers` | hypherator-tools/src/main/java/io/sevcik/DictionariesProcessor.java:331-340 | the first loop collects exactly the dash-free locales of all records |
| `Manifest.CollectBareLocales` | hypherator-tools/src/main/java/io/sevcik/DictionariesProcessor.java:331-340 | the nested loops compute that set |
| `Manifest.WellAppendedAt` | hypherator-tools/src/main/java/io/sevcik/DictionariesProcessor.java:346-360 | position by position: each appended code is new and not appended twice, every other appended locale is "cs", and "sk" is followed by "cs" |
| `Manifest.ScanCodesFacts` | hypherator-tools/src/main/java/io/sevcik/DictionariesProcessor.java:344-361 | one record's scan only appends; the appended locales are well formed; the known set grows by exactly them; every code of the record becomes known |
| `Manifest.ScanLearns` | hypherator-tools/src/main/java/io/sevcik/DictionariesProcessor.java:349-358 | after one record's scan a code is known only if it was known or was appended, and each of the record's codes is known |
| `Manifest.ScanCodesFails` | hypherator-tools/src/main/java/io/sevcik/DictionariesProcessor.java:346-348 | one record's scan throws iff a locale is all dashes |
| `Manifest.ScanLocales` | hypherator-tools/src/main/java/io/sevcik/DictionariesProcessor.java:344-361 | the inner loop computes the reference scan, including its failure |
| `Manifest.ExtendLength` | hypherator-tools/src/main/java/io/sevcik/DictionariesProcessor.java:343-364 | the second loop keeps the records done and gives one record per remaining record |
| `Manifest.ExtendAt` | hypherator-tools/src/main/java/io/sevcik/DictionariesProcessor.java:343-364 | record `i` keeps its locations and hyphen, extends its locales, and appends well-formed codes new to the known set |
| `Manifest.ExtendFresh` | hypherator-tools/src/main/java/io/sevcik/DictionariesProcessor.java:349-353 | a code appended to record `i` was neither appended to an earlier record nor a code of one |
| `Manifest.ExtendCovers` | hypherator-tools/src/main/java/io/sevcik/DictionariesProcessor.java:349-353 | a code of record `i` that was not known is appended to record `i` or to an earlier one |
| `Manifest.ExtendFails` | hypherator-tools/src/main/java/io/sevcik/DictionariesProcessor.java:343-364 | the second loop throws iff a remaining record has an all-dash locale |
| `Manifest.RegionalCodesHaveNoDash` | hypherator-tools/src/main/java/io/sevcik/DictionariesProcessor.java:348 | a language code has no dash |
| `Manifest.DefaultLocalesShape` | hypherator-tools/src/main/java/io/sevcik/DictionariesProcessor.java:343-364 | same number of records; each keeps its locations and hyphen, and its old locales are a prefix of the new ones |
| `Manifest.DefaultLocalesAppends` | hypherator-tools/src/main/java/io/sevcik/DictionariesProcessor.java:331-359 | each appended code is the code of one of the record's regional locales, is not appended twice and is no locale of any record; the rest are "cs", which follows each "sk", unchecked against known locales |
| `Manifest.DefaultLocalesFirstRecord` | hypherator-tools/src/main/java/io/sevcik/DictionariesProcessor.java:349-353 | a code goes to the first record with that language: no earlier record had it appended or had a locale of that language |
| `Manifest.DefaultLocalesCovers` | hypherator-tools/src/main/java/io/sevcik/DictionariesProcessor.java:331-361 | afterwards every language of a regional locale has its bare code, as a locale of some record or appended to this record or an earlier one |
| `Manifest.DefaultLocalesFails` | hypherator-tools/src/main/java/io/sevcik/DictionariesProcessor.java:346-348 | extractDefaultLocales throws iff some record has an all-dash locale |
| `Manifest.SubdirLocalesOf` | hypherator-tools/src/main/java/io/sevcik/DictionariesProcessor.java:126-128 | a subdirectory `xx_YY` gets the locales `xx-YY` then `xx` |
| `Manifest.Without` | hypherator-tools/src/main/java/io/sevcik/DictionariesProcessor.java:158-159 | a record is kept iff it names neither locale |
| `Manifest.WithoutAppend` | hypherator-tools/src/main/java/io/sevcik/DictionariesProcessor.java:158-159 | the kept records keep their order and multiplicity: those kept from each part of the list, in turn |
| `Manifest.Sink` | hypherator-tools/src/main/java/io/sevcik/DictionariesProcessor.java:375 | one insertion step: the first `i + 1` records are ordered by first location, a permutation |
| `Manifest.SortByLocation` | hypherator-tools/src/main/java/io/sevcik/DictionariesProcessor.java:375 | the result is ordered by first location (`compareTo`) and is a permutation of the input |
| `Manifest.DictionariesProcessor.constructor` | hypherator-tools/src/main/java/io/sevcik/DictionariesProcessor.java:79 | the record list starts empty |
| `Manifest.DictionariesProcessor.RegisterSubdirectory` | hypherator-tools/src/main/java/io/sevcik/DictionariesProcessor.java:122-160 | a directory without `_`, pattern file or license changes nothing; otherwise every record naming `xx-YY` or `xx` goes and the new record comes last with hyphen "" |
| `Manifest.DictionariesProcessor.ExtractDefaultLocales` | hypherator-tools/src/main/java/io/sevcik/DictionariesProcessor.java:330-365 | succeeds iff the reference model does, and then leaves its records |
| `Manifest.DictionariesProcessor.AddManualDictionaries` | hypherator-tools/src/main/java/io/sevcik/DictionariesProcessor.java:367-370 | appends exactly the ro and la records, in that order, with the default hyphen "-" of a new record (line 44) |
| `Manifest.DictionariesProcessor.SortByFirstLocation` | hypherator-tools/src/main/java/io/sevcik/DictionariesProcessor.java:375 | succeeds iff there are fewer than two records or all have a location; then ordered by first location and a permutation |
| `Manifest.DictionariesProcessor.PrepareManifest` | hypherator-tools/src/main/java/io/sevcik/DictionariesProcessor.java:372-375 | succeeds iff extractDefaultLocales succeeds and every record has a location; then the list is ordered and a permutation of the extended records plus the manual ones |

## Left out

- File and stream I/O: `fromFile`, the `BufferedReader`, directory listing, file copying, XML parsing of dictionary definitions, the JSON write and `main`. The file's lines, the subdirectory name, the name of its first pattern file and whether it has a license are parameters.
- Logging (slf4j and the console). It has no effect on the state modelled.
- `processDirectoryLibreOffice`, `processDictionaryDefinition` and the rest of `processHyphenData` beyond the compatibility test: they depend on the file system. `createOrDeleteDirectory` and the encoding converter are left out for the same reason.
- The break-finding and iteration of the hyphenator (`HyphenateImpl`, `HyphenationIterator`, `Hypherator`). Those classes are not part of this model.
- `PotentialBreakImpl`: a value holder with no behaviour, used only by the parts left out.
- Digits are `'0'..'9'`. `Character.isDigit` and `getNumericValue` also accept other Unicode digits, and `parseInt` does too.
- DictBuilder.ReadLines: counts NEXTLEVEL lines in an unbounded `level`. Java's `int level` (HyphenDictBuilder.java:40, :76) would wrap after 2^32 NEXTLEVEL lines and the test at :88 would see 0 again; no real dictionary comes near that.
- RuleParser.DigitBreaks and RuleParser.ReplacementForms: measure offsets and the one-field count (`length()`) in characters, not UTF-16 code units. They differ from Java only for characters outside the Basic Multilingual Plane, which Java stores as two code units. `RuleParser.Letters`, `DigitBreakAt` and `NormalRuleShape` share this.
- `JavaStrings.LessEq`: `String.compareTo` compares UTF-16 code units. The model compares characters, which differs from Java only for characters outside the Basic Multilingual Plane.
- `JavaStrings.EqualsIgnoreCaseAscii`: the case-insensitive header test folds ASCII letters only. Java also folds the few non-ASCII characters whose case mapping is an ASCII letter; the model does not.
- Manifest.SortByLocation: is proved ordered and a permutation of its input, but its stability is not stated. Java's `List.sort` is stable, and the model uses an insertion sort, which is stable too.
- Manifest.DictionariesProcessor.ExtractDefaultLocales, Manifest.DictionariesProcessor.SortByFirstLocation and Manifest.DictionariesProcessor.PrepareManifest: say nothing about the list after a failure. Java throws partway through and leaves some records already updated.
- Manifest.DictionariesProcessor.SortByFirstLocation: does not model where `locations.get(0)` throws when some record has no location. TimSort's comparison order decides that, so only the fact that the sort fails is stated.
- HyphenDicts.HyphenDict.InsertRule: the HashMap iteration order is left open with a nondeterministic choice. The result does not depend on it.
- `Rule` and `BreakRule` are values. Java mutates them in place through a local reference and reads them back through the map. Each is reachable from exactly one map entry, and the model writes the new value back into that entry, so only the object identity is not modelled.
- RuleParser.StoredIndexAtMostOne: "the stored index is at most 1" is stated only when `index + count` does not overflow, since it fails otherwise (`StoredIndexWrapsOnOverflow`).
