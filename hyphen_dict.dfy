/**
 * One level of a compiled pattern dictionary (HyphenDict.java): four margins,
 * the pattern rules keyed by their digit-free match string, the no-hyphen
 * literals, the display hyphen and the link to the next level.
 */
module HyphenDicts {
  import opened Results

  /**
   * A break at one boundary offset of a rule: its priority (`value`) and an
   * optional spelling replacement. `replacement == None` is Java's `null`.
   */
  datatype BreakRule = BreakRule(value: int, replacement: Option<string>, replacementIndex: int, replacementCount: int)
  {
    /**
     * `BreakRule.equals` as written: the argument is cast but the comparison
     * is made between `this` and `this`, so every BreakRule argument is
     * "equal". `None` stands for an argument that is not a BreakRule.
     */
    function Equals(o: Option<BreakRule>): (r: bool)
      ensures r <==> o.Some?
    {
      match o
      case None => false
      case Some(_) =>
        var breakRule := this;
        value == breakRule.value && replacementIndex == breakRule.replacementIndex
        && replacementCount == breakRule.replacementCount && replacement == breakRule.replacement
    }
  }

  /** `new BreakRule().setValue(value)` */
  function NewBreakRule(value: int): BreakRule {
    BreakRule(value, None, 0, 0)
  }

  /** A pattern: its match key and the breaks at its boundary offsets. */
  datatype Rule = Rule(matchKey: string, breakRules: map<int, BreakRule>)

  /** The state of one HyphenDict object, without its `nextLevel` link. */
  datatype Level = Level(
    leftHyphenMin: int,
    rightHyphenMin: int,
    leftCompoundMin: int,
    rightCompoundMin: int,
    rules: map<string, Rule>,
    noHyphens: seq<string>,
    hyphen: Option<string>)

  /** The field initialisers of a fresh HyphenDict. */
  const EmptyLevel: Level := Level(0, 0, 0, 0, map[], [], None)

  /** Every rule is filed under its own match key. */
  ghost predicate KeyedByMatch(rules: map<string, Rule>) {
    forall k :: k in rules ==> rules[k].matchKey == k
  }

  /**
   * The rules map after `insertRule(newRule)`. A new key is stored as is. For
   * an existing key the offsets of the new rule that the stored rule lacks are
   * added, and every offset the stored rule has keeps its BreakRule, whatever
   * the priorities: `equals` always holds, so the priority test is never run.
   */
  function InsertedRules(rules: map<string, Rule>, newRule: Rule): (r: map<string, Rule>)
    ensures r.Keys == rules.Keys + {newRule.matchKey}
    ensures forall k :: k in rules && k != newRule.matchKey ==> r[k] == rules[k]
    ensures newRule.matchKey !in rules ==> r[newRule.matchKey] == newRule
    ensures newRule.matchKey in rules ==>
      var existing := rules[newRule.matchKey];
      var merged := r[newRule.matchKey];
      && merged.matchKey == existing.matchKey
      && merged.breakRules.Keys == existing.breakRules.Keys + newRule.breakRules.Keys
      && (forall o :: o in existing.breakRules ==> merged.breakRules[o] == existing.breakRules[o])
      && (forall o :: o in newRule.breakRules && o !in existing.breakRules ==>
            merged.breakRules[o] == newRule.breakRules[o])
    ensures KeyedByMatch(rules) ==> KeyedByMatch(r)
  {
    var key := newRule.matchKey;
    if key in rules then
      rules[key := rules[key].(breakRules := newRule.breakRules + rules[key].breakRules)]
    else
      rules[key := newRule]
  }

  /** Some element of a non-empty set of offsets (the iteration order of a HashMap). */
  method PickOffset(offsets: set<int>) returns (offset: int)
    requires offsets != {}
    ensures offset in offsets
  {
    if forall o :: o !in offsets {
      assert false;
    }
    offset :| offset in offsets;
  }

  class HyphenDict {
    var leftHyphenMin: int
    var rightHyphenMin: int
    var leftCompoundMin: int
    var rightCompoundMin: int
    var rules: map<string, Rule>
    var nextLevel: HyphenDict?
    var noHyphens: seq<string>
    var hyphen: Option<string>

    /** The level this object holds. */
    function View(): Level
      reads this
    {
      Level(leftHyphenMin, rightHyphenMin, leftCompoundMin, rightCompoundMin, rules, noHyphens, hyphen)
    }

    /** All margins 0, no rules, no no-hyphen literals, no next level, no hyphen. */
    constructor ()
      ensures View() == EmptyLevel && nextLevel == null
    {
      leftHyphenMin, rightHyphenMin, leftCompoundMin, rightCompoundMin := 0, 0, 0, 0;
      rules := map[];
      nextLevel := null;
      noHyphens := [];
      hyphen := None;
    }

    /**
     * `insertRule`: merges `newRule` into the rule stored under its match key,
     * one entry of the new rule at a time, or stores it if the key is new.
     */
    method InsertRule(newRule: Rule)
      modifies this`rules
      ensures rules == InsertedRules(old(rules), newRule)
    {
      var key := newRule.matchKey;
      if key in rules {
        ghost var original := rules[key].breakRules;
        var todo := newRule.breakRules.Keys;
        while todo != {}
          invariant todo <= newRule.breakRules.Keys
          invariant key in rules
          invariant rules == old(rules)[key := rules[key]]
          invariant rules[key].matchKey == old(rules)[key].matchKey
          invariant rules[key].breakRules == (newRule.breakRules - todo) + original
          decreases todo
        {
          var offset := PickOffset(todo);
          var newBreakRule := newRule.breakRules[offset];
          var existingRule := rules[key];
          var breakRules := existingRule.breakRules;
          if offset in breakRules {
            var existingBreakRule := breakRules[offset];
            if !existingBreakRule.Equals(Some(newBreakRule)) {
              // which one has the higher priority? (never reached: Equals holds)
              var oldPriority := existingBreakRule.value;
              var newPriority := newBreakRule.value;
              if newPriority > oldPriority {
                breakRules := breakRules[offset := newBreakRule];
              }
            }
          } else {
            breakRules := breakRules[offset := newBreakRule];
          }
          rules := rules[key := existingRule.(breakRules := breakRules)];
          todo := todo - {offset};
        }
        assert newRule.breakRules - todo == newRule.breakRules;
      } else {
        rules := rules[key := newRule];
      }
    }

    /** `insertNoHyphen`: appends, keeping earlier entries and duplicates. */
    method InsertNoHyphen(noHyphen: string)
      modifies this`noHyphens
      ensures noHyphens == old(noHyphens) + [noHyphen]
    {
      noHyphens := noHyphens + [noHyphen];
    }
  }
}
