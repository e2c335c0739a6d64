/**
 * The secure-coding rules the plugin implements, named by their CERT Oracle
 * Secure Coding Standard for Java identifiers, with each rule's category.
 */
module RuleIds {

  /** One tag per rule class of the plugin. */
  datatype RuleId =
    | IDS00J | IDS01J | IDS07J | IDS11J
    | DCL02J
    | EXP00J | EXP02J
    | NUM07J | NUM09J
    | STR00J
    | LCK09J
    | ERR08J
    | FIO08J
    | ENV02J
    | MSC02J

  /** The rule's identifier as the standard writes it, such as "LCK09-J". */
  function Code(r: RuleId): (code: string)
    ensures |code| == 7 && code[5..] == "-J"
  {
    match r
    case IDS00J => "IDS00-J"
    case IDS01J => "IDS01-J"
    case IDS07J => "IDS07-J"
    case IDS11J => "IDS11-J"
    case DCL02J => "DCL02-J"
    case EXP00J => "EXP00-J"
    case EXP02J => "EXP02-J"
    case NUM07J => "NUM07-J"
    case NUM09J => "NUM09-J"
    case STR00J => "STR00-J"
    case LCK09J => "LCK09-J"
    case ERR08J => "ERR08-J"
    case FIO08J => "FIO08-J"
    case ENV02J => "ENV02-J"
    case MSC02J => "MSC02-J"
  }

  /**
   * The number of the standard's chapter the rule belongs to: 00 Input
   * Validation and Data Sanitization, 01 Declarations and Initialization,
   * 02 Expressions, 03 Numeric Types and Operations, 04 Characters and
   * Strings, 07 Exceptional Behavior, 09 Locking, 13 Input Output,
   * 16 Runtime Environment, 49 Miscellaneous.
   */
  function Category(r: RuleId): (chapter: nat)
    ensures chapter in {0, 1, 2, 3, 4, 7, 9, 13, 16, 49}
  {
    match r
    case IDS00J | IDS01J | IDS07J | IDS11J => 0
    case DCL02J => 1
    case EXP00J | EXP02J => 2
    case NUM07J | NUM09J => 3
    case STR00J => 4
    case ERR08J => 7
    case LCK09J => 9
    case FIO08J => 13
    case ENV02J => 16
    case MSC02J => 49
  }

  /** Distinct rules have distinct identifiers, so a rule is known by its code. */
  lemma CodeIsInjective(r1: RuleId, r2: RuleId)
    ensures Code(r1) == Code(r2) <==> r1 == r2
  {
  }
}
