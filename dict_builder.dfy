/**
 * The rule-file compiler (HyphenDictBuilder.java): reads a hyphenation
 * pattern file line by line into a chain of HyphenDict levels. The file is
 * given as its sequence of lines; an exception that aborts the load is an
 * `Err`.
 */
module DictBuilder {
  import opened Results
  import opened JavaStrings
  import opened HyphenDicts
  import opened RuleParser

  /** Why a load aborts. */
  datatype LoadError =
    | MissingEncoding          // the first line is not UTF8 / UTF-8
    | InvalidMargin(line: string)  // a margin directive whose value parseInt rejects

  // ---------------------------------------------------------------------------
  // Directives and constants
  // ---------------------------------------------------------------------------

  const LEFT_HYPHEN_MIN: string := "LEFTHYPHENMIN"
  const RIGHT_HYPHEN_MIN: string := "RIGHTHYPHENMIN"
  const COMPOUND_LEFT_HYPHEN_MIN: string := "COMPOUNDLEFTHYPHENMIN"
  const COMPOUND_RIGHT_HYPHEN_MIN: string := "COMPOUNDRIGHTHYPHENMIN"
  const NO_HYPHEN: string := "NOHYPHEN"
  const NEXT_LEVEL: string := "NEXTLEVEL"

  /** The literal the default no-hyphen list is split from. */
  const NO_HYPHEN_DEFAULTS: string := "',–,’,-"
  /** The value of `NO_HYPHEN_DEFAULTS.split(",")` (DefaultNoHyphenList). */
  const DEFAULT_NO_HYPHEN_LIST: seq<string> := ["'", "–", "’", "-"]

  /** The rule line `1c1`: breaks of priority 1 on both sides of `c`. */
  function BaseRuleLine(c: char): string {
    ['1', c, '1']
  }

  /** `split(",")` of four comma-separated characters. */
  lemma SplitFour(a: char, b: char, c: char, d: char)
    requires a != ',' && b != ',' && c != ',' && d != ','
    ensures Split([a, ',', b, ',', c, ',', d], ',') == [[a], [b], [c], [d]]
  {
    hide Fields;
    FieldsOneChar(c, ',', [d]);
    FieldsOneChar(b, ',', [c, ',', d]);
    FieldsOneChar(a, ',', [b, ',', c, ',', d]);
    assert [a, ','] + [b, ',', c, ',', d] == [a, ',', b, ',', c, ',', d];
    assert [b, ','] + [c, ',', d] == [b, ',', c, ',', d];
    assert [c, ','] + [d] == [c, ',', d];
  }

  /** The default list is what `split(",")` makes of its literal. */
  lemma DefaultNoHyphenList()
    ensures Split(NO_HYPHEN_DEFAULTS, ',') == DEFAULT_NO_HYPHEN_LIST
  {
    SplitFour('\'', '–', '’', '-');
  }

  /** The header line: "UTF8" or "UTF-8", ignoring case. */
  predicate IsEncodingDeclaration(line: string) {
    EqualsIgnoreCaseAscii(line, "UTF8") || EqualsIgnoreCaseAscii(line, "UTF-8")
  }

  /** A comment (`%` or `#`) or a blank line. */
  predicate IsIgnored(line: string) {
    StartsWith(line, "%") || StartsWith(line, "#") || IsBlank(line)
  }

  /** `parseInt` of the trimmed text after a directive keyword. */
  function MarginValue(line: string, keyword: string): Option<int>
    requires StartsWith(line, keyword)
  {
    ParseInt(Trim(line[|keyword|..]))
  }

  /** The comma-separated items after NOHYPHEN, as `trim().split(",")` gives them. */
  function NoHyphenItems(line: string): seq<string>
    requires StartsWith(line, NO_HYPHEN)
  {
    Split(Trim(line[|NO_HYPHEN|..]), ',')
  }

  // ---------------------------------------------------------------------------
  // The effect of one line on the level being built
  // ---------------------------------------------------------------------------

  datatype LineEffect =
    | Updated(level: Level)   // the current level, possibly changed
    | NextLevel               // a fresh level receives the following lines
    | Abort(error: LoadError) // the load fails

  /** The four margin directives. */
  datatype Margin = LeftHyphenMin | RightHyphenMin | CompoundLeftMin | CompoundRightMin

  function Keyword(m: Margin): string {
    match m
    case LeftHyphenMin => LEFT_HYPHEN_MIN
    case RightHyphenMin => RIGHT_HYPHEN_MIN
    case CompoundLeftMin => COMPOUND_LEFT_HYPHEN_MIN
    case CompoundRightMin => COMPOUND_RIGHT_HYPHEN_MIN
  }

  /** A level with one margin set. */
  function WithMargin(level: Level, m: Margin, v: int): Level {
    match m
    case LeftHyphenMin => level.(leftHyphenMin := v)
    case RightHyphenMin => level.(rightHyphenMin := v)
    case CompoundLeftMin => level.(leftCompoundMin := v)
    case CompoundRightMin => level.(rightCompoundMin := v)
  }

  /** What one line asks of the level being built, once it has been parsed. */
  datatype Directive =
    | Skip                                        // a comment or a blank line
    | SetMargin(margin: Margin, value: int)       // a margin directive
    | BadMargin(line: string)                     // a margin directive whose value parseInt rejects
    | AddNoHyphens(items: seq<string>)            // NOHYPHEN
    | OpenLevel                                   // NEXTLEVEL
    | AddPattern(rule: Result<Rule, RuleError>)   // any other line, through addNormalRule

  /** A margin directive with keyword `Keyword(m)`. */
  function MarginDirective(m: Margin, line: string): Directive
    requires StartsWith(line, Keyword(m))
  {
    match MarginValue(line, Keyword(m))
    case None => BadMargin(line)
    case Some(v) => SetMargin(m, v)
  }

  /** The tests of the line loop of fromInputStream, in their order. */
  function ParseLine(line: string): Directive {
    if IsIgnored(line) then Skip
    else if StartsWith(line, LEFT_HYPHEN_MIN) then MarginDirective(LeftHyphenMin, line)
    else if StartsWith(line, RIGHT_HYPHEN_MIN) then MarginDirective(RightHyphenMin, line)
    else if StartsWith(line, COMPOUND_LEFT_HYPHEN_MIN) then MarginDirective(CompoundLeftMin, line)
    else if StartsWith(line, COMPOUND_RIGHT_HYPHEN_MIN) then MarginDirective(CompoundRightMin, line)
    else if StartsWith(line, NO_HYPHEN) then AddNoHyphens(NoHyphenItems(line))
    else if StartsWith(line, NEXT_LEVEL) then OpenLevel
    else AddPattern(NormalRule(line))
  }

  /** The effect of a parsed line on the current level. */
  function Apply(level: Level, d: Directive): LineEffect {
    match d
    case Skip => Updated(level)
    case SetMargin(m, v) => Updated(WithMargin(level, m, v))
    case BadMargin(line) => Abort(InvalidMargin(line))
    case AddNoHyphens(items) => Updated(level.(noHyphens := level.noHyphens + items))
    case OpenLevel => NextLevel
    case AddPattern(rule) =>
      // a RuntimeException from addNormalRule is logged and the line skipped
      if rule.Ok? then Updated(level.(rules := InsertedRules(level.rules, rule.value))) else Updated(level)
  }

  /** One pass of the line loop of fromInputStream. */
  function LineStep(level: Level, line: string): LineEffect {
    Apply(level, ParseLine(line))
  }

  /** The levels so far (the last one is being built) after one more line. */
  function Step(levels: seq<Level>, line: string): (r: Result<seq<Level>, LoadError>)
    requires |levels| > 0
    ensures r.Ok? ==> |r.value| > 0
  {
    match LineStep(levels[|levels| - 1], line)
    case Updated(l) => Ok(levels[..|levels| - 1] + [l])
    case NextLevel => Ok(levels + [EmptyLevel])
    case Abort(e) => Err(e)
  }

  /** The levels after all of `lines`, or the first error. */
  function Run(levels: seq<Level>, lines: seq<string>): (r: Result<seq<Level>, LoadError>)
    requires |levels| > 0
    ensures r.Ok? ==> |r.value| > 0
    decreases |lines|
  {
    if lines == [] then Ok(levels)
    else
      match Step(levels, lines[0])
      case Err(e) => Err(e)
      case Ok(next) => Run(next, lines[1..])
  }

  // ---------------------------------------------------------------------------
  // The base level and the whole load
  // ---------------------------------------------------------------------------

  /** A compound margin falls back to the hyphen margin, then to 3. */
  function CompoundDefault(compoundMin: int, hyphenMin: int): int {
    if compoundMin > 0 then compoundMin else if hyphenMin > 0 then hyphenMin else 3
  }

  /** The rule for mark `c` of a base level: priority 1 at offsets 0 and 1. */
  function BreakAround(c: char): Rule {
    Rule([c], map[0 := NewBreakRule(1), 1 := NewBreakRule(1)])
  }

  /** The rules of a synthesised base level, one per mark (BaseRuleParses, NewBaseLevel). */
  const BASE_LEVEL_RULES: map<string, Rule> :=
    map["-" := BreakAround('-'), "'" := BreakAround('\''), "–" := BreakAround('–'), "’" := BreakAround('’')]

  /** The level put in front of a single parsed level. */
  function BaseLevel(parsed: Level): Level {
    Level(
      parsed.leftHyphenMin,
      parsed.rightHyphenMin,
      CompoundDefault(parsed.leftCompoundMin, parsed.leftHyphenMin),
      CompoundDefault(parsed.rightCompoundMin, parsed.rightHyphenMin),
      BASE_LEVEL_RULES,
      DEFAULT_NO_HYPHEN_LIST,
      None)
  }

  /** Without NEXTLEVEL a base level is put in front; otherwise the levels stand. */
  function Finish(levels: seq<Level>): seq<Level>
    requires |levels| > 0
  {
    if |levels| == 1 then [BaseLevel(levels[0])] + levels else levels
  }

  /** fromInputStream over the lines of a file: the levels in chain order. */
  function Compile(lines: seq<string>): Result<seq<Level>, LoadError> {
    if lines == [] || !IsEncodingDeclaration(lines[0]) then Err(MissingEncoding)
    else
      match Run([EmptyLevel], lines[1..])
      case Err(e) => Err(e)
      case Ok(levels) => Ok(Finish(levels))
  }

  // ---------------------------------------------------------------------------
  // Properties of a line
  // ---------------------------------------------------------------------------

  /** Two prefixes that differ at position `i` cannot both start a line. */
  lemma PrefixesDiffer(s: string, p: string, q: string, i: nat)
    requires i < |p| && i < |q| && p[i] != q[i]
    ensures StartsWith(s, p) ==> !StartsWith(s, q)
  {
    if StartsWith(s, p) {
      assert s[i] == s[..|p|][i] == p[i];
    }
  }

  /** A line starting with a keyword is neither a comment nor blank. */
  lemma KeywordNotIgnored(line: string, keyword: string)
    requires StartsWith(line, keyword) && keyword != [] && keyword[0] > ' '
    requires keyword[0] != '%' && keyword[0] != '#'
    ensures !IsIgnored(line)
  {
    assert line[0] == line[..|keyword|][0] == keyword[0];
    PrefixesDiffer(line, keyword, "%", 0);
    PrefixesDiffer(line, keyword, "#", 0);
  }

  /**
   * The directive keywords exclude each other and comments: a line starts
   * with at most one of them, so the order of the tests does not matter.
   */
  lemma KeywordsExclusive(line: string)
    ensures StartsWith(line, LEFT_HYPHEN_MIN) ==> (!IsIgnored(line)
      && !StartsWith(line, RIGHT_HYPHEN_MIN) && !StartsWith(line, COMPOUND_LEFT_HYPHEN_MIN)
      && !StartsWith(line, COMPOUND_RIGHT_HYPHEN_MIN) && !StartsWith(line, NO_HYPHEN) && !StartsWith(line, NEXT_LEVEL))
    ensures StartsWith(line, RIGHT_HYPHEN_MIN) ==> (!IsIgnored(line)
      && !StartsWith(line, LEFT_HYPHEN_MIN) && !StartsWith(line, COMPOUND_LEFT_HYPHEN_MIN)
      && !StartsWith(line, COMPOUND_RIGHT_HYPHEN_MIN) && !StartsWith(line, NO_HYPHEN) && !StartsWith(line, NEXT_LEVEL))
    ensures StartsWith(line, COMPOUND_LEFT_HYPHEN_MIN) ==> (!IsIgnored(line)
      && !StartsWith(line, LEFT_HYPHEN_MIN) && !StartsWith(line, RIGHT_HYPHEN_MIN)
      && !StartsWith(line, COMPOUND_RIGHT_HYPHEN_MIN) && !StartsWith(line, NO_HYPHEN) && !StartsWith(line, NEXT_LEVEL))
    ensures StartsWith(line, COMPOUND_RIGHT_HYPHEN_MIN) ==> (!IsIgnored(line)
      && !StartsWith(line, LEFT_HYPHEN_MIN) && !StartsWith(line, RIGHT_HYPHEN_MIN)
      && !StartsWith(line, COMPOUND_LEFT_HYPHEN_MIN) && !StartsWith(line, NO_HYPHEN) && !StartsWith(line, NEXT_LEVEL))
    ensures StartsWith(line, NO_HYPHEN) ==> (!IsIgnored(line)
      && !StartsWith(line, LEFT_HYPHEN_MIN) && !StartsWith(line, RIGHT_HYPHEN_MIN)
      && !StartsWith(line, COMPOUND_LEFT_HYPHEN_MIN) && !StartsWith(line, COMPOUND_RIGHT_HYPHEN_MIN)
      && !StartsWith(line, NEXT_LEVEL))
    ensures StartsWith(line, NEXT_LEVEL) ==> (!IsIgnored(line)
      && !StartsWith(line, LEFT_HYPHEN_MIN) && !StartsWith(line, RIGHT_HYPHEN_MIN)
      && !StartsWith(line, COMPOUND_LEFT_HYPHEN_MIN) && !StartsWith(line, COMPOUND_RIGHT_HYPHEN_MIN)
      && !StartsWith(line, NO_HYPHEN))
  {
    if StartsWith(line, LEFT_HYPHEN_MIN) { KeywordNotIgnored(line, LEFT_HYPHEN_MIN); }
    if StartsWith(line, RIGHT_HYPHEN_MIN) { KeywordNotIgnored(line, RIGHT_HYPHEN_MIN); }
    if StartsWith(line, COMPOUND_LEFT_HYPHEN_MIN) { KeywordNotIgnored(line, COMPOUND_LEFT_HYPHEN_MIN); }
    if StartsWith(line, COMPOUND_RIGHT_HYPHEN_MIN) { KeywordNotIgnored(line, COMPOUND_RIGHT_HYPHEN_MIN); }
    if StartsWith(line, NO_HYPHEN) { KeywordNotIgnored(line, NO_HYPHEN); }
    if StartsWith(line, NEXT_LEVEL) { KeywordNotIgnored(line, NEXT_LEVEL); }
    // keywords that differ in their first character
    PrefixesDiffer(line, LEFT_HYPHEN_MIN, RIGHT_HYPHEN_MIN, 0);
    PrefixesDiffer(line, LEFT_HYPHEN_MIN, COMPOUND_LEFT_HYPHEN_MIN, 0);
    PrefixesDiffer(line, LEFT_HYPHEN_MIN, COMPOUND_RIGHT_HYPHEN_MIN, 0);
    PrefixesDiffer(line, LEFT_HYPHEN_MIN, NO_HYPHEN, 0);
    PrefixesDiffer(line, LEFT_HYPHEN_MIN, NEXT_LEVEL, 0);
    PrefixesDiffer(line, RIGHT_HYPHEN_MIN, COMPOUND_LEFT_HYPHEN_MIN, 0);
    PrefixesDiffer(line, RIGHT_HYPHEN_MIN, COMPOUND_RIGHT_HYPHEN_MIN, 0);
    PrefixesDiffer(line, RIGHT_HYPHEN_MIN, NO_HYPHEN, 0);
    PrefixesDiffer(line, RIGHT_HYPHEN_MIN, NEXT_LEVEL, 0);
    PrefixesDiffer(line, COMPOUND_LEFT_HYPHEN_MIN, NO_HYPHEN, 0);
    PrefixesDiffer(line, COMPOUND_LEFT_HYPHEN_MIN, NEXT_LEVEL, 0);
    PrefixesDiffer(line, COMPOUND_RIGHT_HYPHEN_MIN, NO_HYPHEN, 0);
    PrefixesDiffer(line, COMPOUND_RIGHT_HYPHEN_MIN, NEXT_LEVEL, 0);
    // COMPOUNDLEFT… and COMPOUNDRIGHT… differ after "COMPOUND"; NOHYPHEN and NEXTLEVEL after "N"
    PrefixesDiffer(line, COMPOUND_LEFT_HYPHEN_MIN, COMPOUND_RIGHT_HYPHEN_MIN, 8);
    PrefixesDiffer(line, NO_HYPHEN, NEXT_LEVEL, 1);
  }

  /**
   * Since the keywords exclude each other, a line takes a branch exactly when
   * it starts with that branch's keyword, whatever the order of the tests.
   */
  lemma ParseLineByKeyword(line: string)
    ensures ParseLine(line).Skip? <==> IsIgnored(line)
    ensures forall m :: StartsWith(line, Keyword(m)) ==> ParseLine(line) == MarginDirective(m, line)
    ensures ParseLine(line).AddNoHyphens? <==> StartsWith(line, NO_HYPHEN)
    ensures StartsWith(line, NO_HYPHEN) ==> ParseLine(line).items == NoHyphenItems(line)
    ensures ParseLine(line).OpenLevel? <==> StartsWith(line, NEXT_LEVEL)
    ensures ParseLine(line).SetMargin? || ParseLine(line).BadMargin? ==>
      exists m :: StartsWith(line, Keyword(m)) && ParseLine(line) == MarginDirective(m, line)
    ensures ParseLine(line).AddPattern? <==> IsPatternLine(line)
    ensures ParseLine(line).AddPattern? ==> ParseLine(line).rule == NormalRule(line)
  {
    hide NormalRule, NoHyphenItems, MarginValue;
    KeywordsExclusive(line);
    forall m | StartsWith(line, Keyword(m)) ensures ParseLine(line) == MarginDirective(m, line) {
      match m
      case LeftHyphenMin =>
      case RightHyphenMin =>
      case CompoundLeftMin =>
      case CompoundRightMin =>
    }
    if StartsWith(line, LEFT_HYPHEN_MIN) {
      assert StartsWith(line, Keyword(LeftHyphenMin));
    } else if StartsWith(line, RIGHT_HYPHEN_MIN) {
      assert StartsWith(line, Keyword(RightHyphenMin));
    } else if StartsWith(line, COMPOUND_LEFT_HYPHEN_MIN) {
      assert StartsWith(line, Keyword(CompoundLeftMin));
    } else if StartsWith(line, COMPOUND_RIGHT_HYPHEN_MIN) {
      assert StartsWith(line, Keyword(CompoundRightMin));
    }
  }

  /** A significant line that starts with none of the keywords: a pattern. */
  predicate IsPatternLine(line: string) {
    && !IsIgnored(line)
    && (forall m :: !StartsWith(line, Keyword(m)))
    && !StartsWith(line, NO_HYPHEN)
    && !StartsWith(line, NEXT_LEVEL)
  }

  /**
   * A pattern line inserts its parsed rule into the current level; a rule
   * that does not parse leaves the level as it was.
   */
  lemma PatternLineStep(level: Level, line: string)
    requires IsPatternLine(line)
    ensures LineStep(level, line) ==
      Updated(if NormalRule(line).Ok? then level.(rules := InsertedRules(level.rules, NormalRule(line).value)) else level)
  {
    hide NormalRule, NoHyphenItems, MarginValue;
    ParseLineByKeyword(line);
  }

  /** A margin directive whose value is not an `int`. */
  predicate IsBadMarginLine(line: string) {
    exists m :: StartsWith(line, Keyword(m)) && MarginValue(line, Keyword(m)).None?
  }

  /** A line aborts the load exactly when it is a margin directive with a bad value. */
  lemma LineAborts(level: Level, line: string)
    ensures LineStep(level, line).Abort? <==> IsBadMarginLine(line)
    ensures LineStep(level, line).Abort? ==> LineStep(level, line).error == InvalidMargin(line)
  {
    hide NormalRule, NoHyphenItems, MarginValue;
    ParseLineByKeyword(line);
  }

  /** Only a line starting with NEXTLEVEL opens a new level. */
  lemma NextLevelOpensLevel(level: Level, line: string)
    ensures LineStep(level, line).NextLevel? <==> StartsWith(line, NEXT_LEVEL)
  {
    hide NormalRule, NoHyphenItems, MarginValue;
    ParseLineByKeyword(line);
  }

  /**
   * NOHYPHEN appends its items to the current level, and no other line
   * touches the no-hyphen list.
   */
  lemma NoHyphenAppends(level: Level, line: string)
    requires LineStep(level, line).Updated?
    ensures LineStep(level, line).level.noHyphens ==
      level.noHyphens + (if StartsWith(line, NO_HYPHEN) then NoHyphenItems(line) else [])
  {
    hide NormalRule, NoHyphenItems, MarginValue;
    ParseLineByKeyword(line);
  }

  /**
   * A margin directive with an `int` value sets that margin of the current
   * level and nothing else.
   */
  lemma MarginSets(level: Level, line: string, m: Margin)
    requires StartsWith(line, Keyword(m)) && MarginValue(line, Keyword(m)).Some?
    ensures LineStep(level, line) == Updated(WithMargin(level, m, MarginValue(line, Keyword(m)).value))
  {
    hide NormalRule, NoHyphenItems, MarginValue;
    ParseLineByKeyword(line);
  }

  // ---------------------------------------------------------------------------
  // Properties of a run of lines
  // ---------------------------------------------------------------------------

  /** The number of NEXTLEVEL lines. */
  function NextLevelCount(lines: seq<string>): nat {
    if lines == [] then 0
    else (if StartsWith(lines[0], NEXT_LEVEL) then 1 else 0) + NextLevelCount(lines[1..])
  }

  /** The lines that are neither comments nor blank. */
  function Significant(lines: seq<string>): (r: seq<string>)
    ensures forall l :: l in r <==> l in lines && !IsIgnored(l)
  {
    if lines == [] then []
    else if IsIgnored(lines[0]) then Significant(lines[1..])
    else [lines[0]] + Significant(lines[1..])
  }

  /** The significant lines keep their file order: those of each part, in turn. */
  lemma {:induction false} SignificantAppend(a: seq<string>, b: seq<string>)
    ensures Significant(a + b) == Significant(a) + Significant(b)
    decreases |a|
  {
    if a == [] {
      assert a + b == b;
    } else {
      assert (a + b)[0] == a[0] && (a + b)[1..] == a[1..] + b;
      SignificantAppend(a[1..], b);
    }
  }

  /** The items of every NOHYPHEN line, in file order. */
  function NoHyphenItemsOf(lines: seq<string>): seq<string> {
    if lines == [] then []
    else (if StartsWith(lines[0], NO_HYPHEN) then NoHyphenItems(lines[0]) else []) + NoHyphenItemsOf(lines[1..])
  }

  /**
   * A run fails exactly when some line is a margin directive with a bad
   * value, and it fails with the first such line.
   */
  lemma {:induction false} RunFails(levels: seq<Level>, lines: seq<string>)
    requires |levels| > 0
    ensures Run(levels, lines).Err? <==> exists i :: 0 <= i < |lines| && IsBadMarginLine(lines[i])
    ensures Run(levels, lines).Err? ==>
      exists i :: (0 <= i < |lines| && IsBadMarginLine(lines[i]) &&
        (forall j :: 0 <= j < i ==> !IsBadMarginLine(lines[j])) && Run(levels, lines).error == InvalidMargin(lines[i]))
    decreases |lines|
  {
    hide LineStep, IsBadMarginLine;
    if lines != [] {
      var last := levels[|levels| - 1];
      LineAborts(last, lines[0]);
      if !IsBadMarginLine(lines[0]) {
        var next := Step(levels, lines[0]).value;
        RunFails(next, lines[1..]);
        if Run(levels, lines).Err? {
          var i :| 0 <= i < |lines[1..]| && IsBadMarginLine(lines[1..][i]) &&
            (forall j :: 0 <= j < i ==> !IsBadMarginLine(lines[1..][j])) && Run(next, lines[1..]).error == InvalidMargin(lines[1..][i]);
          assert forall j :: 0 <= j < i + 1 ==> !IsBadMarginLine(lines[j]) by {
            forall j | 0 <= j < i + 1 ensures !IsBadMarginLine(lines[j]) {
              if j > 0 { assert lines[j] == lines[1..][j - 1]; }
            }
          }
          assert IsBadMarginLine(lines[i + 1]);
        } else {
          forall i | 0 <= i < |lines| ensures !IsBadMarginLine(lines[i]) {
            if i > 0 { assert lines[i] == lines[1..][i - 1]; }
          }
        }
      }
    }
  }

  /**
   * A run that succeeds adds one level per NEXTLEVEL line and never changes
   * a level it has left: the finished levels are a prefix of the result.
   */
  lemma {:induction false} RunLevels(levels: seq<Level>, lines: seq<string>)
    requires |levels| > 0 && Run(levels, lines).Ok?
    ensures |Run(levels, lines).value| == |levels| + NextLevelCount(lines)
    ensures levels[..|levels| - 1] <= Run(levels, lines).value
    decreases |lines|
  {
    hide LineStep;
    if lines != [] {
      var next := Step(levels, lines[0]).value;
      NextLevelOpensLevel(levels[|levels| - 1], lines[0]);
      RunLevels(next, lines[1..]);
      assert levels[..|levels| - 1] <= next[..|next| - 1];
    }
  }

  /** Comments and blank lines have no effect on a run. */
  lemma {:induction false} RunSkipsIgnored(levels: seq<Level>, lines: seq<string>)
    requires |levels| > 0
    ensures Run(levels, lines) == Run(levels, Significant(lines))
    decreases |lines|
  {
    hide NormalRule, NoHyphenItems, MarginValue;
    if lines != [] {
      if IsIgnored(lines[0]) {
        assert levels[..|levels| - 1] + [levels[|levels| - 1]] == levels;
        assert Step(levels, lines[0]) == Ok(levels);
        RunSkipsIgnored(levels, lines[1..]);
      } else {
        var s := [lines[0]] + Significant(lines[1..]);
        assert s[0] == lines[0] && s[1..] == Significant(lines[1..]);
        match Step(levels, lines[0])
        case Err(_) =>
        case Ok(next) => RunSkipsIgnored(next, lines[1..]);
      }
    }
  }

  /**
   * Within one level the NOHYPHEN items accumulate in file order after the
   * ones the level had.
   */
  lemma {:induction false} RunCollectsNoHyphens(levels: seq<Level>, lines: seq<string>)
    requires |levels| > 0 && Run(levels, lines).Ok? && NextLevelCount(lines) == 0
    ensures var r := Run(levels, lines).value;
      r[|r| - 1].noHyphens == levels[|levels| - 1].noHyphens + NoHyphenItemsOf(lines)
    decreases |lines|
  {
    hide LineStep;
    if lines != [] {
      var last := levels[|levels| - 1];
      NextLevelOpensLevel(last, lines[0]);
      LineAborts(last, lines[0]);
      NoHyphenAppends(last, lines[0]);
      var next := Step(levels, lines[0]).value;
      RunCollectsNoHyphens(next, lines[1..]);
    }
  }

  // ---------------------------------------------------------------------------
  // Properties of the whole load
  // ---------------------------------------------------------------------------

  /** The load fails for its header exactly when the first line is missing or wrong. */
  lemma CompileHeader(lines: seq<string>)
    ensures Compile(lines) == Err(MissingEncoding) <==> (lines == [] || !IsEncodingDeclaration(lines[0]))
  {
    hide LineStep;
    if lines != [] && IsEncodingDeclaration(lines[0]) {
      RunFails([EmptyLevel], lines[1..]);
    }
  }

  /** After the header the load fails exactly at margin directives with bad values. */
  lemma CompileFails(lines: seq<string>)
    requires lines != [] && IsEncodingDeclaration(lines[0])
    ensures Compile(lines).Err? <==> exists i :: 1 <= i < |lines| && IsBadMarginLine(lines[i])
  {
    hide LineStep;
    RunFails([EmptyLevel], lines[1..]);
    if exists i :: 1 <= i < |lines| && IsBadMarginLine(lines[i]) {
      var i :| 1 <= i < |lines| && IsBadMarginLine(lines[i]);
      assert lines[1..][i - 1] == lines[i];
    }
  }

  /**
   * Without NEXTLEVEL the result is the base level then the parsed level;
   * with n of them it is the n + 1 parsed levels, with no base level.
   */
  lemma CompileShape(lines: seq<string>)
    requires Compile(lines).Ok?
    ensures var levels := Compile(lines).value;
      && (NextLevelCount(lines[1..]) == 0 ==>
            && |levels| == 2 && levels[0] == BaseLevel(levels[1])
            && levels[1..] == Run([EmptyLevel], lines[1..]).value)
      && (NextLevelCount(lines[1..]) > 0 ==>
            |levels| == 1 + NextLevelCount(lines[1..]) && levels == Run([EmptyLevel], lines[1..]).value)
  {
    hide LineStep;
    RunLevels([EmptyLevel], lines[1..]);
  }

  /** A line `1c1` gives the rule `c` with breaks of priority 1 at offsets 0 and 1. */
  lemma BaseRuleParses(c: char)
    requires !IsDigit(c) && c != '/'
    ensures NormalRule(BaseRuleLine(c)) == Ok(BreakAround(c))
  {
    var t := BaseRuleLine(c);
    assert FixBrokenLine(t) == t by {
      assert |t| != |BROKEN_MASSZAZS| && |t| != |BROKEN_GICCSETEK|;
    }
    assert PatternPart(t) == t;
    assert t[..2] == ['1', c] && ['1', c][..1] == ['1'] && ['1'][..0] == [];
    assert Letters(['1', c]) == [c];
    assert DigitValue('1') == 1;
    assert DigitBreaks(['1']) == map[0 := NewBreakRule(1)];
    assert DigitBreaks(['1', c]) == map[0 := NewBreakRule(1)];
  }

  /**
   * The base level copies the hyphen margins of the parsed level, takes each
   * compound margin from the parsed compound margin, or else the hyphen
   * margin, or else 3, and has the default no-hyphen list and the four
   * punctuation rules.
   */
  lemma BaseLevelFacts(parsed: Level)
    ensures var base := BaseLevel(parsed);
      && base.leftHyphenMin == parsed.leftHyphenMin && base.rightHyphenMin == parsed.rightHyphenMin
      && (parsed.leftCompoundMin > 0 ==> base.leftCompoundMin == parsed.leftCompoundMin)
      && (parsed.leftCompoundMin <= 0 && parsed.leftHyphenMin > 0 ==> base.leftCompoundMin == parsed.leftHyphenMin)
      && (parsed.leftCompoundMin <= 0 && parsed.leftHyphenMin <= 0 ==> base.leftCompoundMin == 3)
      && (parsed.rightCompoundMin > 0 ==> base.rightCompoundMin == parsed.rightCompoundMin)
      && (parsed.rightCompoundMin <= 0 && parsed.rightHyphenMin > 0 ==> base.rightCompoundMin == parsed.rightHyphenMin)
      && (parsed.rightCompoundMin <= 0 && parsed.rightHyphenMin <= 0 ==> base.rightCompoundMin == 3)
      && base.noHyphens == ["'", "–", "’", "-"]
      && base.rules.Keys == {"-", "'", "–", "’"}
      && (forall k :: k in base.rules ==> base.rules[k] == BreakAround(k[0]))
      && base.hyphen.None?
  {
  }

  // ---------------------------------------------------------------------------
  // The builder over HyphenDict objects
  // ---------------------------------------------------------------------------

  /** `chain` is a nextLevel-linked list of objects holding `levels`. */
  ghost predicate IsChain(chain: seq<HyphenDict>, levels: seq<Level>)
    reads chain
  {
    && |chain| == |levels|
    && (forall i :: 0 <= i < |chain| ==> chain[i].View() == levels[i])
    && (forall i :: 0 <= i < |chain| - 1 ==> chain[i].nextLevel == chain[i + 1])
    && (|chain| > 0 ==> chain[|chain| - 1].nextLevel == null)
  }

  /** addHyphen: sets the display hyphen of a level. */
  method AddHyphen(dict: HyphenDict, hyphen: string)
    modifies dict`hyphen
    ensures dict.View() == old(dict.View()).(hyphen := Some(hyphen))
  {
    dict.hyphen := Some(hyphen);
  }

  /** The loop `for (String noHphen : items) dict.insertNoHyphen(noHphen)`. */
  method InsertNoHyphens(dict: HyphenDict, items: seq<string>)
    modifies dict`noHyphens
    ensures dict.noHyphens == old(dict.noHyphens) + items
  {
    for i := 0 to |items|
      invariant dict.noHyphens == old(dict.noHyphens) + items[..i]
    {
      assert items[..i + 1] == items[..i] + [items[i]];
      dict.InsertNoHyphen(items[i]);
    }
    assert items[..|items|] == items;
  }

  /** The assignment of a margin directive to the current level. */
  method SetMarginOf(dict: HyphenDict, m: Margin, v: int)
    modifies dict`leftHyphenMin, dict`rightHyphenMin, dict`leftCompoundMin, dict`rightCompoundMin
    ensures dict.View() == WithMargin(old(dict.View()), m, v)
  {
    match m
    case LeftHyphenMin => dict.leftHyphenMin := v;
    case RightHyphenMin => dict.rightHyphenMin := v;
    case CompoundLeftMin => dict.leftCompoundMin := v;
    case CompoundRightMin => dict.rightCompoundMin := v;
  }

  /**
   * The updates a parsed line makes to the level `workingDict`. `Ok(None)`
   * goes on with the same level; `Ok(Some(next))` is NEXTLEVEL, which links
   * and returns a fresh level.
   */
  method ApplyDirective(workingDict: HyphenDict, d: Directive) returns (r: Result<Option<HyphenDict>, LoadError>)
    modifies workingDict
    ensures Apply(old(workingDict.View()), d).Updated? ==>
      && r == Ok(None)
      && workingDict.View() == Apply(old(workingDict.View()), d).level
      && workingDict.nextLevel == old(workingDict.nextLevel)
    ensures Apply(old(workingDict.View()), d).NextLevel? ==>
      && r.Ok? && r.value.Some? && fresh(r.value.value)
      && r.value.value.View() == EmptyLevel && r.value.value.nextLevel == null
      && workingDict.View() == old(workingDict.View()) && workingDict.nextLevel == r.value.value
    ensures Apply(old(workingDict.View()), d).Abort? ==>
      r == Err(Apply(old(workingDict.View()), d).error)
  {
    match d
    case Skip =>
      r := Ok(None);
    case SetMargin(m, v) =>
      SetMarginOf(workingDict, m, v);
      r := Ok(None);
    case BadMargin(line) =>
      r := Err(InvalidMargin(line));
    case AddNoHyphens(items) =>
      InsertNoHyphens(workingDict, items);
      r := Ok(None);
    case OpenLevel =>
      var next := new HyphenDict();
      workingDict.nextLevel := next;
      r := Ok(Some(next));
    case AddPattern(rule) =>
      if rule.Ok? {
        workingDict.InsertRule(rule.value);
      }
      r := Ok(None);
  }

  /** The body of the line loop of fromInputStream for the level `workingDict`. */
  method ReadLine(workingDict: HyphenDict, line: string) returns (r: Result<Option<HyphenDict>, LoadError>)
    modifies workingDict
    ensures LineStep(old(workingDict.View()), line).Updated? ==>
      && r == Ok(None)
      && workingDict.View() == LineStep(old(workingDict.View()), line).level
      && workingDict.nextLevel == old(workingDict.nextLevel)
    ensures LineStep(old(workingDict.View()), line).NextLevel? ==>
      && r.Ok? && r.value.Some? && fresh(r.value.value)
      && r.value.value.View() == EmptyLevel && r.value.value.nextLevel == null
      && workingDict.View() == old(workingDict.View()) && workingDict.nextLevel == r.value.value
    ensures LineStep(old(workingDict.View()), line).Abort? ==>
      r == Err(LineStep(old(workingDict.View()), line).error)
  {
    var d := ParseLine(line);
    r := ApplyDirective(workingDict, d);
  }

  /** `addNormalRule(dict, "1c1")` for a punctuation mark `c`. */
  method AddBaseRule(dict: HyphenDict, c: char)
    requires !IsDigit(c) && c != '/'
    modifies dict`rules
    ensures dict.rules == InsertedRules(old(dict.rules), BreakAround(c))
  {
    BaseRuleParses(c);
    var added := AddNormalRule(dict, BaseRuleLine(c));
  }

  /** The four addNormalRule calls of a fresh base level: 1-1, 1'1, 1–1, 1’1. */
  method AddBaseRules(dict: HyphenDict)
    requires dict.rules == map[]
    modifies dict`rules
    ensures dict.rules == BASE_LEVEL_RULES
  {
    AddBaseRule(dict, '-');
    assert dict.rules == map["-" := BreakAround('-')];
    AddBaseRule(dict, '\'');
    assert dict.rules == map["-" := BreakAround('-'), "'" := BreakAround('\'')];
    AddBaseRule(dict, '–');
    assert dict.rules == map["-" := BreakAround('-'), "'" := BreakAround('\''), "–" := BreakAround('–')];
    AddBaseRule(dict, '’');
  }

  /**
   * The base level of a file without NEXTLEVEL: margins from `dict`, the
   * default no-hyphen list, the four punctuation rules, and `dict` behind it.
   */
  method NewBaseLevel(dict: HyphenDict) returns (baseLevel: HyphenDict)
    ensures fresh(baseLevel)
    ensures baseLevel.View() == BaseLevel(dict.View()) && baseLevel.nextLevel == dict
  {
    baseLevel := new HyphenDict();
    baseLevel.leftHyphenMin := dict.leftHyphenMin;
    baseLevel.rightHyphenMin := dict.rightHyphenMin;
    baseLevel.leftCompoundMin :=
      if dict.leftCompoundMin > 0 then dict.leftCompoundMin else if dict.leftHyphenMin > 0 then dict.leftHyphenMin else 3;
    baseLevel.rightCompoundMin :=
      if dict.rightCompoundMin > 0 then dict.rightCompoundMin else if dict.rightHyphenMin > 0 then dict.rightHyphenMin else 3;
    InsertNoHyphens(baseLevel, DEFAULT_NO_HYPHEN_LIST);
    AddBaseRules(baseLevel);
    baseLevel.nextLevel := dict;
  }

  /**
   * The line loop of fromInputStream over the lines after the header, into
   * the fresh level `dict`. On success `chain` is the list of levels from
   * `dict` on, in nextLevel order, holding the levels Run gives.
   */
  method ReadLines(dict: HyphenDict, body: seq<string>) returns (r: Option<LoadError>, level: nat, ghost chain: seq<HyphenDict>)
    requires dict.View() == EmptyLevel && dict.nextLevel == null
    modifies dict
    ensures r.Some? <==> Run([EmptyLevel], body).Err?
    ensures r.Some? ==> r.value == Run([EmptyLevel], body).error
    ensures r.None? ==> IsChain(chain, Run([EmptyLevel], body).value)
    ensures |chain| == level + 1 && chain[0] == dict
    ensures forall i :: 0 < i < |chain| ==> fresh(chain[i])
  {
    hide LineStep;
    var workingDict := dict;
    chain := [dict];
    ghost var frozen: seq<Level> := [];
    assert frozen + [workingDict.View()] == [EmptyLevel];
    level := 0;
    var k := 0;
    while k < |body|
      invariant 0 <= k <= |body|
      invariant |chain| == |frozen| + 1 == level + 1
      invariant chain[0] == dict && chain[|chain| - 1] == workingDict
      invariant forall i :: 0 < i < |chain| ==> fresh(chain[i])
      invariant forall i, j :: 0 <= i < j < |chain| ==> chain[i] != chain[j]
      invariant forall i :: 0 <= i < |chain| - 1 ==> chain[i].nextLevel == chain[i + 1] && chain[i].View() == frozen[i]
      invariant workingDict.nextLevel == null
      invariant Run([EmptyLevel], body) == Run(frozen + [workingDict.View()], body[k..])
      decreases |body| - k
    {
      var line := body[k];
      ghost var levels := frozen + [workingDict.View()];
      assert body[k..][0] == line && body[k..][1..] == body[k + 1..];
      var outcome := ReadLine(workingDict, line);
      if outcome.Err? {
        return Some(outcome.error), level, chain;
      }
      if outcome.value.Some? {
        level := level + 1;
        frozen := frozen + [workingDict.View()];
        workingDict := outcome.value.value;
        chain := chain + [workingDict];
      }
      assert Step(levels, line) == Ok(frozen + [workingDict.View()]);
      k := k + 1;
    }
    assert body[k..] == [];
    return None, level, chain;
  }

  /**
   * fromInputStream over `lines`: the first level of the chain, or the
   * error. `chain` lists the levels in nextLevel order; they hold exactly
   * the levels Compile gives.
   */
  method FromLines(lines: seq<string>) returns (r: Result<HyphenDict, LoadError>, ghost chain: seq<HyphenDict>)
    ensures r.Err? <==> Compile(lines).Err?
    ensures r.Err? ==> r.error == Compile(lines).error
    ensures r.Ok? ==> IsChain(chain, Compile(lines).value) && chain[0] == r.value
    ensures forall i :: 0 <= i < |chain| ==> fresh(chain[i])
  {
    hide LineStep, BaseLevel, Run;
    var dict := new HyphenDict();
    chain := [dict];
    if lines == [] || !IsEncodingDeclaration(lines[0]) {
      return Err(MissingEncoding), chain;
    }
    var failure, level;
    failure, level, chain := ReadLines(dict, lines[1..]);
    if failure.Some? {
      return Err(failure.value), chain;
    }
    if level == 0 {
      var baseLevel := NewBaseLevel(dict);
      dict := baseLevel;
      chain := [baseLevel] + chain;
    }
    return Ok(dict), chain;
  }
}
