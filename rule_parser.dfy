/**
 * One pattern line of a rule file turned into a Rule (HyphenDictBuilder.addNormalRule):
 * digit-interleaved literals, then an optional `/replacement[,index,count]` suffix.
 */
module RuleParser {
  import opened Results
  import opened JavaStrings
  import opened HyphenDicts

  /** The RuntimeExceptions that addNormalRule can throw. */
  datatype RuleError =
    | BadNumber               // NumberFormatException from Integer.parseInt
    | NoBreakInRegion         // NullPointerException: no break in the three-field region
    | MultipleBreaksInRegion  // "Multiple break rules within the same replacement region"
    | NoBreakAtOffsetOne      // NullPointerException: one-field form without a break at 1
    | UnsupportedFieldCount   // "WE DO HANDLE replacements without indices and counts"

  // ---------------------------------------------------------------------------
  // The two known broken lines of shipped dictionaries and their fixed forms
  // ---------------------------------------------------------------------------

  const BROKEN_MASSZAZS: string := ".mas5száz8s3zok1ni/sz=3,1,1,14"
  const FIXED_MASSZAZS: string := ".mas5száz8s3zok1ni/sz=,3,1"
  const BROKEN_GICCSETEK: string := "gic5csetek/cs=,3,1 ,1,9"
  const FIXED_GICCSETEK: string := "gic5csetek/cs=,3,1"

  /** The literal substitutions made before a line is parsed. */
  function FixBrokenLine(line: string): (fixed: string)
    ensures line == BROKEN_MASSZAZS ==> fixed == FIXED_MASSZAZS
    ensures line == BROKEN_GICCSETEK ==> fixed == FIXED_GICCSETEK
    ensures line != BROKEN_MASSZAZS && line != BROKEN_GICCSETEK ==> fixed == line
  {
    var line1 := if line == BROKEN_MASSZAZS then FIXED_MASSZAZS else line;
    if line1 == BROKEN_GICCSETEK then FIXED_GICCSETEK else line1
  }

  // ---------------------------------------------------------------------------
  // Digit-interleaved token: match key and breaks
  // ---------------------------------------------------------------------------

  /** The literal characters of a token, digits removed. */
  function Letters(t: string): (w: string)
    ensures |w| <= |t|
    ensures forall i :: 0 <= i < |w| ==> !IsDigit(w[i])
  {
    if t == [] then []
    else
      var p := t[..|t| - 1];
      if IsDigit(t[|t| - 1]) then Letters(p) else Letters(p) + [t[|t| - 1]]
  }

  /** The number of literal characters before position `j` of a token. */
  function Offset(t: string, j: nat): nat
    requires j <= |t|
  {
    |Letters(t[..j])|
  }

  /** Each digit puts a fresh BreakRule at the offset of the literals before it. */
  function DigitBreaks(t: string): (m: map<int, BreakRule>)
    ensures forall k :: k in m ==> 0 <= k <= |Letters(t)|
    ensures forall k :: k in m ==> m[k] == NewBreakRule(m[k].value) && 0 <= m[k].value <= 9
  {
    if t == [] then map[]
    else
      var p := t[..|t| - 1];
      var c := t[|t| - 1];
      if IsDigit(c) then DigitBreaks(p)[|Letters(p)| := NewBreakRule(DigitValue(c))] else DigitBreaks(p)
  }

  /** Removing digits commutes with concatenation: the literals keep their order. */
  lemma {:induction false} LettersAppend(a: string, b: string)
    ensures Letters(a + b) == Letters(a) + Letters(b)
    decreases |b|
  {
    if b != [] {
      var b' := b[..|b| - 1];
      assert (a + b)[..|a + b| - 1] == a + b';
      assert (a + b)[|a + b| - 1] == b[|b| - 1];
      LettersAppend(a, b');
    } else {
      assert a + b == a;
    }
  }

  /** A single character: a digit is dropped, any other character is kept. */
  lemma LettersOfChar(c: char)
    ensures Letters([c]) == if IsDigit(c) then [] else [c]
  {
    assert [c][..0] == [];
  }

  /** A leading `.` anchor is a literal, so the key keeps it. */
  lemma KeyKeepsAnchor(t: string)
    requires t != [] && t[0] == '.'
    ensures Letters(t) != [] && Letters(t)[0] == '.'
  {
    LettersAppend([t[0]], t[1..]);
    assert [t[0]] + t[1..] == t;
    assert Letters([t[0]]) == ['.'] by {
      assert [t[0]][..0] == [];
    }
  }

  /**
   * The break at the offset of a digit carries that digit's value, unless a
   * later digit has the same offset (then the later one overwrites it).
   */
  lemma {:induction false} DigitBreakAt(t: string, j: nat)
    requires j < |t| && IsDigit(t[j])
    requires forall j' :: j < j' < |t| && IsDigit(t[j']) ==> Offset(t, j') != Offset(t, j)
    ensures Offset(t, j) in DigitBreaks(t)
    ensures DigitBreaks(t)[Offset(t, j)] == NewBreakRule(DigitValue(t[j]))
    decreases |t|
  {
    var p := t[..|t| - 1];
    if j < |t| - 1 {
      assert t[..j] == p[..j];
      forall j' | j < j' < |p| && IsDigit(p[j'])
        ensures Offset(p, j') != Offset(p, j)
      {
        assert t[..j'] == p[..j'];
        assert Offset(t, j') != Offset(t, j);
      }
      DigitBreakAt(p, j);
      if IsDigit(t[|t| - 1]) {
        assert t[..|t| - 1] == p;
        assert Offset(t, |t| - 1) == |Letters(p)|;
      }
    }
  }

  /** Every break of a token comes from one of its digits. */
  lemma {:induction false} DigitBreakSource(t: string, k: int)
    requires k in DigitBreaks(t)
    ensures exists j :: 0 <= j < |t| && IsDigit(t[j]) && Offset(t, j) == k
    decreases |t|
  {
    var p := t[..|t| - 1];
    var c := t[|t| - 1];
    if IsDigit(c) && k == |Letters(p)| {
      assert 0 <= |t| - 1 < |t| && IsDigit(t[|t| - 1]) && Offset(t, |t| - 1) == k;
    } else {
      DigitBreakSource(p, k);
      var j :| 0 <= j < |p| && IsDigit(p[j]) && Offset(p, j) == k;
      assert t[..j] == p[..j];
      assert 0 <= j < |t| && IsDigit(t[j]) && Offset(t, j) == k;
    }
  }

  /** The StringBuilder loop of addNormalRule: literals to the key, digits to breaks. */
  method SplitPattern(token: string) returns (word: string, breaks: map<int, BreakRule>)
    ensures word == Letters(token) && breaks == DigitBreaks(token)
  {
    word := [];
    breaks := map[];
    var i := 0;
    while i < |token|
      invariant 0 <= i <= |token|
      invariant word == Letters(token[..i]) && breaks == DigitBreaks(token[..i])
    {
      var c := token[i];
      if IsDigit(c) {
        breaks := breaks[|word| := NewBreakRule(DigitValue(c))];
      } else {
        word := word + [c];
      }
      assert token[..i + 1][..i] == token[..i];
      i := i + 1;
    }
    assert token[..|token|] == token;
  }

  // ---------------------------------------------------------------------------
  // Three-field replacement: the region search
  // ---------------------------------------------------------------------------

  /** The smallest offset in [lo, hi) that has a break, if any. */
  function FirstKeyIn(breaks: map<int, BreakRule>, lo: int, hi: int): (r: Option<int>)
    ensures r.Some? ==> lo <= r.value < hi && r.value in breaks
    decreases hi - lo
  {
    if lo >= hi then None
    else if lo in breaks then Some(lo)
    else FirstKeyIn(breaks, lo + 1, hi)
  }

  /** No break of [lo, hi) comes before the one found, and none is found only when there is none. */
  lemma {:induction false} FirstKeyInIsFirst(breaks: map<int, BreakRule>, lo: int, hi: int)
    ensures FirstKeyIn(breaks, lo, hi).Some? ==> forall k :: lo <= k < FirstKeyIn(breaks, lo, hi).value ==> k !in breaks
    ensures FirstKeyIn(breaks, lo, hi).None? <==> forall k :: lo <= k < hi ==> k !in breaks
    decreases hi - lo
  {
    if lo < hi && lo !in breaks {
      FirstKeyInIsFirst(breaks, lo + 1, hi);
    }
  }

  /** The break the region search settles on and the index stored with it. */
  datatype Region = Region(offset: int, index: int)

  /**
   * The break at `h` is the one chosen for `index` and `count`: it is the
   * first break at or after `index - 1` below `index + count`, and no other
   * break lies after it below the bound recomputed from the stored index
   * `index - h`. All arithmetic is 32-bit.
   */
  ghost predicate ChosenBreak(breaks: map<int, BreakRule>, index: int, count: int, h: int)
    requires IsInt32(index) && IsInt32(count)
  {
    && h in breaks
    && Wrap32(index - 1) <= h < Wrap32(index + count)
    && (forall k :: Wrap32(index - 1) <= k < h ==> k !in breaks)
    && (forall k :: h < k < Wrap32(Wrap32(index - h) + count) ==> k !in breaks)
  }

  /**
   * Reference definition of the region search: the first break in the
   * initial region, then a search for a second break up to the shrunken bound.
   */
  function RegionBreak(breaks: map<int, BreakRule>, index: int, count: int): (r: Result<Region, RuleError>)
    requires IsInt32(index) && IsInt32(count)
    ensures r.Ok? ==> r.value.offset in breaks
    ensures r.Ok? ==> Wrap32(index - 1) <= r.value.offset < Wrap32(index + count)
    ensures r.Ok? ==> r.value.index == Wrap32(index - r.value.offset)
    ensures r.Err? ==> r.error == NoBreakInRegion || r.error == MultipleBreaksInRegion
  {
    match FirstKeyIn(breaks, Wrap32(index - 1), Wrap32(index + count))
    case None => Err(NoBreakInRegion)
    case Some(h) =>
      var stored := Wrap32(index - h);
      if FirstKeyIn(breaks, h + 1, Wrap32(stored + count)).Some? then Err(MultipleBreaksInRegion)
      else Ok(Region(h, stored))
  }

  /** The region search fails with NoBreakInRegion exactly when the initial region holds no break. */
  lemma RegionBreakEmpty(breaks: map<int, BreakRule>, index: int, count: int)
    requires IsInt32(index) && IsInt32(count)
    ensures RegionBreak(breaks, index, count) == Err(NoBreakInRegion) <==>
      forall k :: Wrap32(index - 1) <= k < Wrap32(index + count) ==> k !in breaks
  {
    FirstKeyInIsFirst(breaks, Wrap32(index - 1), Wrap32(index + count));
  }

  /**
   * The region search succeeds exactly when some break is chosen; that break
   * is unique and is the one returned.
   */
  lemma RegionBreakIsChosen(breaks: map<int, BreakRule>, index: int, count: int)
    requires IsInt32(index) && IsInt32(count)
    ensures RegionBreak(breaks, index, count).Ok? <==> exists h :: ChosenBreak(breaks, index, count, h)
    ensures forall h :: ChosenBreak(breaks, index, count, h) ==>
      RegionBreak(breaks, index, count) == Ok(Region(h, Wrap32(index - h)))
  {
    var r := RegionBreak(breaks, index, count);
    if r.Ok? {
      ResultIsChosen(breaks, index, count);
    }
    forall h | ChosenBreak(breaks, index, count, h)
      ensures r == Ok(Region(h, Wrap32(index - h)))
    {
      ChosenIsResult(breaks, index, count, h);
    }
  }

  /** A break the region search returns is a chosen one. */
  lemma ResultIsChosen(breaks: map<int, BreakRule>, index: int, count: int)
    requires IsInt32(index) && IsInt32(count)
    requires RegionBreak(breaks, index, count).Ok?
    ensures ChosenBreak(breaks, index, count, RegionBreak(breaks, index, count).value.offset)
  {
    var h := RegionBreak(breaks, index, count).value.offset;
    FirstKeyInIsFirst(breaks, Wrap32(index - 1), Wrap32(index + count));
    FirstKeyInIsFirst(breaks, h + 1, Wrap32(Wrap32(index - h) + count));
  }

  /** A chosen break is the one the region search returns. */
  lemma ChosenIsResult(breaks: map<int, BreakRule>, index: int, count: int, h: int)
    requires IsInt32(index) && IsInt32(count)
    requires ChosenBreak(breaks, index, count, h)
    ensures RegionBreak(breaks, index, count) == Ok(Region(h, Wrap32(index - h)))
  {
    ChosenIsFirst(breaks, index, count, h);
    FirstKeyInIsFirst(breaks, h + 1, Wrap32(Wrap32(index - h) + count));
  }

  /** A chosen break is the first break of the initial region. */
  lemma ChosenIsFirst(breaks: map<int, BreakRule>, index: int, count: int, h: int)
    requires IsInt32(index) && IsInt32(count)
    requires ChosenBreak(breaks, index, count, h)
    ensures FirstKeyIn(breaks, Wrap32(index - 1), Wrap32(index + count)) == Some(h)
  {
    var lo, hi := Wrap32(index - 1), Wrap32(index + count);
    FirstKeyInIsFirst(breaks, lo, hi);
  }

  /**
   * The search loop of addNormalRule, one iteration per call: `i` runs from
   * `index - 1` while it is below `replacementIndex + count`, and the first
   * hit reassigns `replacementIndex`, which moves the loop's own bound.
   */
  function RegionScan(breaks: map<int, BreakRule>, count: int, i: int, replacementIndex: int, relevantBreak: Option<int>)
    : Result<Region, RuleError>
    requires IsInt32(i) && IsInt32(replacementIndex) && IsInt32(count)
    decreases INT_MAX - i
  {
    if i < Wrap32(replacementIndex + count) then
      if i in breaks then
        if relevantBreak.Some? then Err(MultipleBreaksInRegion)
        else RegionScan(breaks, count, i + 1, Wrap32(replacementIndex - i), Some(i))
      else RegionScan(breaks, count, i + 1, replacementIndex, relevantBreak)
    else if relevantBreak.None? then Err(NoBreakInRegion)
    else Ok(Region(relevantBreak.value, replacementIndex))
  }

  /** After the first hit the scan only looks for a second break below the new bound. */
  lemma {:induction false} ScanAfterFirst(breaks: map<int, BreakRule>, count: int, i: int, ri: int, h: int)
    requires IsInt32(i) && IsInt32(ri) && IsInt32(count)
    ensures RegionScan(breaks, count, i, ri, Some(h)) ==
      if FirstKeyIn(breaks, i, Wrap32(ri + count)).Some? then Err(MultipleBreaksInRegion) else Ok(Region(h, ri))
    decreases INT_MAX - i
  {
    if i < Wrap32(ri + count) && i !in breaks {
      assert RegionScan(breaks, count, i, ri, Some(h)) == RegionScan(breaks, count, i + 1, ri, Some(h));
      ScanAfterFirst(breaks, count, i + 1, ri, h);
    }
  }

  /** Before the first hit the scan looks for the first break of its range. */
  lemma {:induction false} ScanBeforeFirst(breaks: map<int, BreakRule>, count: int, i: int, ri: int)
    requires IsInt32(i) && IsInt32(ri) && IsInt32(count)
    ensures RegionScan(breaks, count, i, ri, None) ==
      match FirstKeyIn(breaks, i, Wrap32(ri + count))
      case None => Err(NoBreakInRegion)
      case Some(h) =>
        if FirstKeyIn(breaks, h + 1, Wrap32(Wrap32(ri - h) + count)).Some? then Err(MultipleBreaksInRegion)
        else Ok(Region(h, Wrap32(ri - h)))
    decreases INT_MAX - i
  {
    hide Wrap32;
    var end := Wrap32(ri + count);
    if i < end {
      if i in breaks {
        assert FirstKeyIn(breaks, i, end) == Some(i);
        assert RegionScan(breaks, count, i, ri, None) == RegionScan(breaks, count, i + 1, Wrap32(ri - i), Some(i));
        ScanAfterFirst(breaks, count, i + 1, Wrap32(ri - i), i);
      } else {
        assert FirstKeyIn(breaks, i, end) == FirstKeyIn(breaks, i + 1, end);
        assert RegionScan(breaks, count, i, ri, None) == RegionScan(breaks, count, i + 1, ri, None);
        ScanBeforeFirst(breaks, count, i + 1, ri);
      }
    } else {
      assert FirstKeyIn(breaks, i, end) == None;
    }
  }

  /** The loop as written computes the reference definition of the region search. */
  lemma ScanIsRegionBreak(breaks: map<int, BreakRule>, index: int, count: int)
    requires IsInt32(index) && IsInt32(count)
    ensures RegionScan(breaks, count, Wrap32(index - 1), index, None) == RegionBreak(breaks, index, count)
  {
    ScanBeforeFirst(breaks, count, Wrap32(index - 1), index);
  }

  /** The search loop of addNormalRule. */
  method FindRegionBreak(breaks: map<int, BreakRule>, index: int, count: int)
      returns (r: Result<Region, RuleError>)
    requires IsInt32(index) && IsInt32(count)
    ensures r == RegionBreak(breaks, index, count)
  {
    var replacementIndex := index;
    var relevantBreak: Option<int> := None;
    var i := Wrap32(replacementIndex - 1);
    ScanIsRegionBreak(breaks, index, count);
    while i < Wrap32(replacementIndex + count)
      invariant IsInt32(i) && IsInt32(replacementIndex)
      invariant RegionScan(breaks, count, i, replacementIndex, relevantBreak) == RegionBreak(breaks, index, count)
      decreases INT_MAX - i
    {
      if i in breaks {
        if relevantBreak.Some? {
          return Err(MultipleBreaksInRegion);
        }
        relevantBreak := Some(i);
        replacementIndex := Wrap32(replacementIndex - i);
      }
      i := i + 1;
    }
    if relevantBreak.None? {
      return Err(NoBreakInRegion);
    }
    return Ok(Region(relevantBreak.value, replacementIndex));
  }

  /**
   * Without 32-bit overflow in `index + count` the stored index is
   * `index - offset`, which is at most 1 because the region starts at `index - 1`.
   */
  lemma StoredIndexAtMostOne(breaks: map<int, BreakRule>, index: int, count: int)
    requires IsInt32(index) && IsInt32(count) && IsInt32(index + count)
    requires RegionBreak(breaks, index, count).Ok?
    ensures var region := RegionBreak(breaks, index, count).value;
      region.index == index - region.offset && region.index <= 1
  {
    var h := RegionBreak(breaks, index, count).value.offset;
    assert Wrap32(index - 1) == index - 1;
    assert IsInt32(index - h);
  }

  /** With overflow the stored index can be large: a region search that wraps. */
  lemma StoredIndexWrapsOnOverflow()
    ensures RegionBreak(map[2 := NewBreakRule(1)], INT_MIN + 1, -2) == Ok(Region(2, INT_MAX))
  {
    var breaks := map[2 := NewBreakRule(1)];
    assert Wrap32(INT_MIN + 1 - 1) == INT_MIN;
    assert Wrap32(INT_MIN + 1 + -2) == INT_MAX;
    FirstKeyInIsFirst(breaks, INT_MIN, INT_MAX);
    assert 2 in breaks;
    assert Wrap32(INT_MIN + 1 - 2) == INT_MAX;
    assert Wrap32(INT_MAX + -2) == INT_MAX - 2;
  }

  // ---------------------------------------------------------------------------
  // addNormalRule
  // ---------------------------------------------------------------------------

  /** The part of a line before its first `/`. */
  function PatternPart(line: string): (p: string)
    ensures '/' !in p
    ensures p <= line && (p == line || line[|p|] == '/')
  {
    if '/' in line then line[..IndexOf(line, '/')] else line
  }

  /** The part of a line after its first `/`, if it has one. */
  function ReplacementPart(line: string): Option<string> {
    if '/' in line then Some(line[IndexOf(line, '/') + 1..]) else None
  }

  /** A BreakRule with replacement text, index and count set. */
  function WithReplacement(b: BreakRule, replacement: string, index: int, count: int): BreakRule {
    b.(replacement := Some(replacement), replacementIndex := index, replacementCount := count)
  }

  /** The region index is counted from after a leading `.` anchor of the key. */
  function AnchoredIndex(word: string, parsedIndex: int): (index: int)
    requires IsInt32(parsedIndex)
    ensures IsInt32(index)
    ensures StartsWith(word, ".") && parsedIndex < INT_MAX ==> index == parsedIndex + 1
    ensures StartsWith(word, ".") && parsedIndex == INT_MAX ==> index == INT_MIN
    ensures !StartsWith(word, ".") ==> index == parsedIndex
  {
    if StartsWith(word, ".") then Wrap32(parsedIndex + 1) else parsedIndex
  }

  /**
   * The three-field form with its index and count parsed: the index is moved
   * past a leading `.` anchor of the key, then the break the region search
   * settles on gets the replacement.
   */
  function RegionReplaced(word: string, breaks: map<int, BreakRule>, replacement: string, parsedIndex: int, count: int)
    : Result<map<int, BreakRule>, RuleError>
    requires IsInt32(parsedIndex) && IsInt32(count)
  {
    var index := AnchoredIndex(word, parsedIndex);
    match RegionBreak(breaks, index, count)
    case Err(e) => Err(e)
    case Ok(region) =>
      Ok(breaks[region.offset := WithReplacement(breaks[region.offset], replacement, region.index, count)])
  }

  /**
   * The breaks of a rule after its replacement suffix `replRule` is applied,
   * or the exception thrown.
   */
  function Replaced(word: string, breaks: map<int, BreakRule>, replRule: string): (r: Result<map<int, BreakRule>, RuleError>)
  {
    var replData := Split(replRule, ',');
    if |replData| == 3 then
      var parsedIndex := ParseInt(replData[1]);
      var parsedCount := ParseInt(replData[2]);
      if parsedIndex.None? || parsedCount.None? then Err(BadNumber)
      else RegionReplaced(word, breaks, replData[0], parsedIndex.value, parsedCount.value)
    else if |replData| == 1 then
      if 1 in breaks then Ok(breaks[1 := WithReplacement(breaks[1], replData[0], 1, |word|)])
      else Err(NoBreakAtOffsetOne)
    else Err(UnsupportedFieldCount)
  }

  /**
   * A replacement suffix annotates at most one existing break: it never adds
   * or removes a break or changes its priority.
   */
  lemma ReplacedAnnotatesOneBreak(word: string, breaks: map<int, BreakRule>, replRule: string)
    requires Replaced(word, breaks, replRule).Ok?
    ensures var replaced := Replaced(word, breaks, replRule).value;
      && replaced.Keys == breaks.Keys
      && (forall k :: k in breaks ==> replaced[k].value == breaks[k].value)
      && (forall k1, k2 ::
            (k1 in breaks && k2 in breaks && replaced[k1] != breaks[k1] && replaced[k2] != breaks[k2]) ==> k1 == k2)
  {
  }

  /**
   * The other forms of the suffix: with one field `repl` the break at offset 1
   * gets the text, index 1 and the key length as count, and the line fails
   * without a break at offset 1; an unparsable index or count fails, and
   * parsed ones hand the region to the three-field form below; any field
   * count other than 1 and 3 is refused.
   */
  lemma ReplacementForms(word: string, breaks: map<int, BreakRule>, replRule: string)
    ensures var fields := Split(replRule, ',');
      && (|fields| == 1 ==> (Replaced(word, breaks, replRule).Ok? <==> 1 in breaks))
      && (|fields| == 1 && 1 in breaks ==>
            Replaced(word, breaks, replRule).value == breaks[1 := WithReplacement(breaks[1], fields[0], 1, |word|)])
      && (|fields| == 3 && (ParseInt(fields[1]).None? || ParseInt(fields[2]).None?) ==>
            Replaced(word, breaks, replRule) == Err(BadNumber))
      && (|fields| == 3 && ParseInt(fields[1]).Some? && ParseInt(fields[2]).Some? ==>
            Replaced(word, breaks, replRule) ==
              RegionReplaced(word, breaks, fields[0], ParseInt(fields[1]).value, ParseInt(fields[2]).value))
      && (|fields| != 1 && |fields| != 3 ==> Replaced(word, breaks, replRule) == Err(UnsupportedFieldCount))
  {
  }

  /**
   * The three-field form `repl,index,count`: the index is moved past a leading
   * `.` anchor of the key, the suffix fails exactly when no break is chosen for
   * the region (none in it, or a second one below the shrunken bound), and
   * otherwise only the chosen break changes: it gets the text, the count and
   * the stored index `index - h`.
   */
  lemma ThreeFieldForm(word: string, breaks: map<int, BreakRule>, replacement: string, parsedIndex: int, count: int)
    requires IsInt32(parsedIndex) && IsInt32(count)
    ensures var index := AnchoredIndex(word, parsedIndex);
      && (RegionReplaced(word, breaks, replacement, parsedIndex, count).Ok? <==>
            exists h :: ChosenBreak(breaks, index, count, h))
      && (forall h :: ChosenBreak(breaks, index, count, h) ==>
            RegionReplaced(word, breaks, replacement, parsedIndex, count) ==
            Ok(breaks[h := WithReplacement(breaks[h], replacement, Wrap32(index - h), count)]))
  {
    var index := AnchoredIndex(word, parsedIndex);
    RegionBreakIsChosen(breaks, index, count);
    assert RegionReplaced(word, breaks, replacement, parsedIndex, count).Ok? <==> RegionBreak(breaks, index, count).Ok?;
  }

  /**
   * The Rule that addNormalRule builds from a line, or the exception it
   * throws (NormalRuleShape says what it is).
   */
  function NormalRule(line0: string): Result<Rule, RuleError> {
    var line := FixBrokenLine(line0);
    var word := Letters(PatternPart(line));
    var breaks := DigitBreaks(PatternPart(line));
    match ReplacementPart(line)
    case None => Ok(Rule(word, breaks))
    case Some(replRule) =>
      match Replaced(word, breaks, replRule)
      case Err(e) => Err(e)
      case Ok(replaced) => Ok(Rule(word, replaced))
  }

  /**
   * The rule of a line: the key is the pattern without its digits, the breaks
   * are those of the digits with their priorities, and at most one of them
   * carries a replacement. Only a line with a replacement suffix can fail.
   */
  lemma NormalRuleShape(line0: string)
    ensures var r := NormalRule(line0);
      var pattern := PatternPart(FixBrokenLine(line0));
      && (r.Ok? ==> r.value.matchKey == Letters(pattern))
      && (r.Ok? ==> r.value.breakRules.Keys == DigitBreaks(pattern).Keys)
      && (r.Ok? ==> forall k :: k in r.value.breakRules ==> r.value.breakRules[k].value == DigitBreaks(pattern)[k].value)
      && (r.Ok? ==> forall k1, k2 ::
            (k1 in r.value.breakRules && k2 in r.value.breakRules &&
             r.value.breakRules[k1].replacement.Some? && r.value.breakRules[k2].replacement.Some?) ==> k1 == k2)
      && (ReplacementPart(FixBrokenLine(line0)).None? ==> r == Ok(Rule(Letters(pattern), DigitBreaks(pattern))))
  {
    var line := FixBrokenLine(line0);
    var replRule := ReplacementPart(line);
    if replRule.Some? {
      var word := Letters(PatternPart(line));
      var breaks := DigitBreaks(PatternPart(line));
      if Replaced(word, breaks, replRule.value).Ok? {
        ReplacedAnnotatesOneBreak(word, breaks, replRule.value);
      }
    }
  }

  /**
   * addNormalRule: builds the rule of `line0` and inserts it into `dict`; when
   * it throws, `dict` is unchanged, since insertRule is its last step.
   */
  method AddNormalRule(dict: HyphenDict, line0: string) returns (r: Result<Rule, RuleError>)
    modifies dict`rules
    ensures r == NormalRule(line0)
    ensures dict.rules == if r.Ok? then InsertedRules(old(dict.rules), r.value) else old(dict.rules)
  {
    r := BuildNormalRule(line0);
    if r.Ok? {
      dict.InsertRule(r.value);
    }
  }

  /** The part of addNormalRule before insertRule: fix-up, pattern, replacement. */
  method BuildNormalRule(line0: string) returns (r: Result<Rule, RuleError>)
    ensures r == NormalRule(line0)
  {
    var line := FixBrokenLine(line0);
    ghost var fixedLine := line;
    var replRule: Option<string> := None;
    if '/' in line {
      var slash := IndexOf(line, '/');
      replRule := Some(line[slash + 1..]);
      line := line[..slash];
    }
    assert line == PatternPart(fixedLine) && replRule == ReplacementPart(fixedLine);
    var word, breaks := SplitPattern(line);
    if replRule.Some? {
      var replaced := ApplyReplacement(word, breaks, replRule.value);
      if replaced.Err? {
        return Err(replaced.error);
      }
      breaks := replaced.value;
    }
    return Ok(Rule(word, breaks));
  }

  /** The replacement branch of addNormalRule, from `split(",")` to the annotated break. */
  method ApplyReplacement(word: string, breaks: map<int, BreakRule>, replRule: string)
      returns (r: Result<map<int, BreakRule>, RuleError>)
    ensures r == Replaced(word, breaks, replRule)
  {
    var replData := Split(replRule, ',');
    if |replData| == 3 {
      var replacement := replData[0];
      var parsedIndex := ParseInt(replData[1]);
      if parsedIndex.None? {
        return Err(BadNumber);
      }
      var parsedCount := ParseInt(replData[2]);
      if parsedCount.None? {
        return Err(BadNumber);
      }
      var replacementIndex := parsedIndex.value;
      var replacementCount := parsedCount.value;
      if StartsWith(word, ".") {
        replacementIndex := Wrap32(replacementIndex + 1);
      }
      var region := FindRegionBreak(breaks, replacementIndex, replacementCount);
      if region.Err? {
        assert Replaced(word, breaks, replRule) == Err(region.error);
        return Err(region.error);
      }
      var h := region.value.offset;
      assert Replaced(word, breaks, replRule) ==
        Ok(breaks[h := WithReplacement(breaks[h], replacement, region.value.index, replacementCount)]);
      return Ok(breaks[h := WithReplacement(breaks[h], replacement, region.value.index, replacementCount)]);
    } else if |replData| == 1 {
      var replacement := replData[0];
      if 1 !in breaks {
        return Err(NoBreakAtOffsetOne);
      }
      return Ok(breaks[1 := WithReplacement(breaks[1], replacement, 1, |word|)]);
    } else {
      return Err(UnsupportedFieldCount);
    }
  }
}
