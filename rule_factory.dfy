/**
 * The rule registry (the plugin's RuleFactory): every call builds a new list
 * holding one instance of each registered rule, grouped by the chapter of
 * the CERT standard it belongs to.
 */
module RuleFactory {
  import opened RuleIds

  /** A growable list of rules, appended to in place (Java's ArrayList<IRule>). */
  class RuleList {
    var elements: seq<RuleId>

    constructor ()
      ensures elements == []
    {
      elements := [];
    }

    /** ArrayList.add: appends one rule at the end. */
    method Add(r: RuleId)
      modifies this
      ensures elements == old(elements) + [r]
    {
      elements := elements + [r];
    }
  }

  /** The registered rules, in registration order. */
  function AllRules(): (rules: seq<RuleId>)
    ensures |rules| == 14
  {
    [ IDS00J, IDS01J, IDS07J, IDS11J,
      DCL02J,
      EXP00J, EXP02J,
      NUM07J, NUM09J,
      STR00J,
      ERR08J,
      FIO08J,
      ENV02J,
      MSC02J ]
  }

  /** getAllRules: a fresh list that receives the registered rules one by one. */
  method GetAllRules() returns (rules: RuleList)
    ensures fresh(rules)
    ensures rules.elements == AllRules()
  {
    rules := new RuleList();

    // 00. Input Validation and Data Sanitization
    rules.Add(IDS00J);
    rules.Add(IDS01J);
    rules.Add(IDS07J);
    rules.Add(IDS11J);

    // 01. Declarations and Initialization
    rules.Add(DCL02J);

    // 02. Expressions
    rules.Add(EXP00J);
    rules.Add(EXP02J);

    // 03. Numeric Types and Operations
    rules.Add(NUM07J);
    rules.Add(NUM09J);

    // 04. Characters and Strings
    rules.Add(STR00J);

    // 07. Exceptional Behavior
    rules.Add(ERR08J);

    // 13. Input Output
    rules.Add(FIO08J);

    // 16. Runtime Environment
    rules.Add(ENV02J);

    // 49. Miscellaneous
    rules.Add(MSC02J);
  }

  /** No rule is registered twice, so no two entries share a rule identifier. */
  lemma AllRulesDistinct()
    ensures forall i, j :: 0 <= i < j < |AllRules()| ==> AllRules()[i] != AllRules()[j]
    ensures forall i, j :: 0 <= i < j < |AllRules()| ==> Code(AllRules()[i]) != Code(AllRules()[j])
  {
  }

  /** Every known rule except LCK09-J is registered; LCK09-J is not. */
  lemma RegisteredRules(r: RuleId)
    ensures r in AllRules() <==> r != LCK09J
  {
  }

  /**
   * The list starts with IDS00-J, ends with MSC02-J, and its chapters never
   * decrease: 00, 01, 02, 03, 04, 07, 13, 16, 49.
   */
  lemma AllRulesGroupedByChapter()
    ensures AllRules()[0] == IDS00J && AllRules()[|AllRules()| - 1] == MSC02J
    ensures forall i, j :: 0 <= i <= j < |AllRules()| ==> Category(AllRules()[i]) <= Category(AllRules()[j])
  {
  }

  /** Each call returns a list of its own: adding to the first result leaves the second as it was. */
  method ResultsAreIndependent() returns (first: RuleList, second: RuleList)
    ensures fresh(first) && fresh(second) && first != second
    ensures first.elements == AllRules() + [LCK09J]
    ensures second.elements == AllRules()
  {
    first := GetAllRules();
    second := GetAllRules();
    first.Add(LCK09J);
  }
}
