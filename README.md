# Secure Coding Assistant: rule LCK09-J and the rule registry

This project models two parts of an Eclipse plugin that checks Java code against
the CERT Oracle Secure Coding Standard for Java.

- **Rule LCK09-J** ("Do not perform operations that can block while holding a lock").
  Its `violated` check takes one syntax-tree node. It fires when the node meets
  all three conditions:
  - it is a call to `java.lang.Thread.sleep`, `java.net.Socket.getOutputStream`,
    `java.net.Socket.getInputStream` or `java.io.Console.readLine`;
  - it has an enclosing method declaration (the nearest one up the parent links);
  - that declaration's modifier scan ends on the `synchronized` keyword.

  The scan walks the modifier list and overwrites its flag at every keyword
  modifier. It passes over annotations. So only the LAST keyword decides.
  The rule's name, text, recommendation and security level are constants.
- **The rule registry** (`RuleFactory.getAllRules`). Each call allocates a new list
  and appends 14 rules to it in a fixed order, grouped by the standard's chapters.

Files:
- `wrappers.dfy`: `Option`.
- `globals.dfy`: the severity levels.
- `ast.dfy`: an abstract syntax tree. It has node kinds (method invocation,
  method declaration with its modifier list, anything else), modifier keywords with
  their flag bits, annotations, and parent links.
- `utility.dfy`: the two matching helpers the rule calls.
- `lck09j.dfy`: the rule.
- `rule_ids.dfy`: the rule identifiers and their chapters.
- `rule_factory.dfy`: the registry.

`Lck09j.Violates` specifies `violated`. `Lck09j.Violated` is the method with the
source's loop, proved equal to it. The lemmas state the rule's properties about
`Violates`. `Violated` has no `modifies` clause and its result is a function of the
node, so repeated calls on an unchanged node agree.

`Utility.calledMethod` and `Utility.getEnclosingNode` are not part of this model.
They are given here by the behaviour the rule relies on:
- `Utility.CalledMethod` is an exact, case-sensitive match of the declaring type's
  name and the method name.
- `Utility.GetEnclosingNode` walks strictly upward from the node's parent to the
  first node of the requested class, or gives `None`.

The JDT modifier flag bits (`PUBLIC` 0x1 … `SYNCHRONIZED` 0x20 … `DEFAULT` 0x10000)
come from the Eclipse JDT's `Modifier` class. That class is outside the source.

## Model

| member | source | states |
|---|---|---|
| Utility.GetEnclosingNode | edu.csus.plugin.securecodingassistant/src/edu/csus/plugin/securecodingassistant/rules/LCK09J_DoNotPerformOperationsThatCanBlockWhileHoldingLock.java:54 | a node it returns is an instance of the requested class |
| Utility.EnclosingNodeAbsent | edu.csus.plugin.securecodingassistant/src/edu/csus/plugin/securecodingassistant/rules/LCK09J_DoNotPerformOperationsThatCanBlockWhileHoldingLock.java:54-55 | the lookup gives None when no ancestor is of the requested class |
| Utility.EnclosingNodeIsNearest | edu.csus.plugin.securecodingassistant/src/edu/csus/plugin/securecodingassistant/rules/LCK09J_DoNotPerformOperationsThatCanBlockWhileHoldingLock.java:54-55 | when some ancestor is of the class, the lookup gives the nearest one: the first met going up |
| Utility.CalledMethod | edu.csus.plugin.securecodingassistant/src/edu/csus/plugin/securecodingassistant/rules/LCK09J_DoNotPerformOperationsThatCanBlockWhileHoldingLock.java:48-51 | the predicate the four-way test calls: the invocation's declaring type and method name both equal the given ones, exactly and case-sensitively; no contract, its properties are in `Lck09j.BlockingCallIffCatalogued` |
| Lck09j.IsBlockingCall | edu.csus.plugin.securecodingassistant/src/edu/csus/plugin/securecodingassistant/rules/LCK09J_DoNotPerformOperationsThatCanBlockWhileHoldingLock.java:48-51 | the four-way `calledMethod` disjunction as written; no contract, characterised by `Lck09j.BlockingCallIffCatalogued` |
| Lck09j.BlockingCallIffCatalogued | edu.csus.plugin.securecodingassistant/src/edu/csus/plugin/securecodingassistant/rules/LCK09J_DoNotPerformOperationsThatCanBlockWhileHoldingLock.java:48-51 | the four-way `calledMethod` test holds iff the (declaring type, method name) pair is one of the four blocking calls |
| Lck09j.SynchronizedFlagIffSynchronized | edu.csus.plugin.securecodingassistant/src/edu/csus/plugin/securecodingassistant/rules/LCK09J_DoNotPerformOperationsThatCanBlockWhileHoldingLock.java:61 | `toFlagValue() & SYNCHRONIZED != 0` holds for the `synchronized` keyword and for no other keyword |
| Lck09j.Keywords | edu.csus.plugin.securecodingassistant/src/edu/csus/plugin/securecodingassistant/rules/LCK09J_DoNotPerformOperationsThatCanBlockWhileHoldingLock.java:57-59 | the keyword entries of a modifier list, with annotations dropped: a keyword is in it iff the list holds it |
| Lck09j.LastKeyword | edu.csus.plugin.securecodingassistant/src/edu/csus/plugin/securecodingassistant/rules/LCK09J_DoNotPerformOperationsThatCanBlockWhileHoldingLock.java:58-63 | None when the list has no keyword; a keyword it gives is one the list holds |
| Lck09j.LastKeywordWins | edu.csus.plugin.securecodingassistant/src/edu/csus/plugin/securecodingassistant/rules/LCK09J_DoNotPerformOperationsThatCanBlockWhileHoldingLock.java:58-63 | a keyword entry followed only by annotations is the one the scan's result comes from, whatever keywords precede it |
| Lck09j.Violates | edu.csus.plugin.securecodingassistant/src/edu/csus/plugin/securecodingassistant/rules/LCK09J_DoNotPerformOperationsThatCanBlockWhileHoldingLock.java:40-70 | the verdict of `violated` as written: a blocking invocation whose nearest enclosing method declaration's modifier scan ends on a keyword with the SYNCHRONIZED bit; no contract, the rule lemmas below state its properties and `Lck09j.Violated` is proved equal to it |
| Lck09j.Violated | edu.csus.plugin.securecodingassistant/src/edu/csus/plugin/securecodingassistant/rules/LCK09J_DoNotPerformOperationsThatCanBlockWhileHoldingLock.java:40-70 | the loop's result equals `Violates(node)`; the invariant is that the flag is the last-seen keyword's SYNCHRONIZED test |
| Lck09j.NonInvocationNotViolated | edu.csus.plugin.securecodingassistant/src/edu/csus/plugin/securecodingassistant/rules/LCK09J_DoNotPerformOperationsThatCanBlockWhileHoldingLock.java:42-46 | a node that is not a method invocation never violates the rule |
| Lck09j.NonBlockingCallNotViolated | edu.csus.plugin.securecodingassistant/src/edu/csus/plugin/securecodingassistant/rules/LCK09J_DoNotPerformOperationsThatCanBlockWhileHoldingLock.java:48-51 | an invocation outside the four blocking calls never violates, whatever encloses it |
| Lck09j.NoEnclosingDeclarationNotViolated | edu.csus.plugin.securecodingassistant/src/edu/csus/plugin/securecodingassistant/rules/LCK09J_DoNotPerformOperationsThatCanBlockWhileHoldingLock.java:54-55 | when no ancestor is a method declaration, the rule does not fire |
| Lck09j.ViolationIffLastKeywordSynchronized | edu.csus.plugin.securecodingassistant/src/edu/csus/plugin/securecodingassistant/rules/LCK09J_DoNotPerformOperationsThatCanBlockWhileHoldingLock.java:57-63 | for a blocking call, it fires iff the last keyword of the nearest enclosing declaration is `synchronized`; with no keywords it never fires |
| Lck09j.LastKeywordIsLastOfKeywords | edu.csus.plugin.securecodingassistant/src/edu/csus/plugin/securecodingassistant/rules/LCK09J_DoNotPerformOperationsThatCanBlockWhileHoldingLock.java:58-63 | the scan's deciding keyword is the last element of the keyword list, and none exists iff that list is empty |
| Lck09j.AnnotationNeverChangesLastKeyword | edu.csus.plugin.securecodingassistant/src/edu/csus/plugin/securecodingassistant/rules/LCK09J_DoNotPerformOperationsThatCanBlockWhileHoldingLock.java:59 | inserting an annotation anywhere in a modifier list leaves the deciding keyword, and so the verdict, unchanged |
| Lck09j.NearestDeclarationDecides | edu.csus.plugin.securecodingassistant/src/edu/csus/plugin/securecodingassistant/rules/LCK09J_DoNotPerformOperationsThatCanBlockWhileHoldingLock.java:54-56 | a blocking call directly in a method declaration is judged by that declaration alone, whatever encloses it further out |
| Lck09j.InnerUnsynchronizedMethodNotFlagged | edu.csus.plugin.securecodingassistant/src/edu/csus/plugin/securecodingassistant/rules/LCK09J_DoNotPerformOperationsThatCanBlockWhileHoldingLock.java:54-56 | `Thread.sleep` in an unsynchronized method of an anonymous class inside a synchronized method is not flagged; the same call directly in the synchronized method is |
| Lck09j.RuleName | edu.csus.plugin.securecodingassistant/src/edu/csus/plugin/securecodingassistant/rules/LCK09J_DoNotPerformOperationsThatCanBlockWhileHoldingLock.java:84-87 | the getter's constant string; no contract |
| Lck09j.RuleText | edu.csus.plugin.securecodingassistant/src/edu/csus/plugin/securecodingassistant/rules/LCK09J_DoNotPerformOperationsThatCanBlockWhileHoldingLock.java:72-82 | the getter's constant string; no contract |
| Lck09j.RuleRecommendation | edu.csus.plugin.securecodingassistant/src/edu/csus/plugin/securecodingassistant/rules/LCK09J_DoNotPerformOperationsThatCanBlockWhileHoldingLock.java:89-94 | the getter's constant string; no contract |
| Lck09j.SecurityLevel | edu.csus.plugin.securecodingassistant/src/edu/csus/plugin/securecodingassistant/rules/LCK09J_DoNotPerformOperationsThatCanBlockWhileHoldingLock.java:96-99 | the security level is LOW; it takes no node, so it is the same for every node |
| Lck09j.AsWrittenMissesExactlySynchronizedNotLast | edu.csus.plugin.securecodingassistant/src/edu/csus/plugin/securecodingassistant/rules/LCK09J_DoNotPerformOperationsThatCanBlockWhileHoldingLock.java:58-63 | every flagged node is an intended violation; the rule misses exactly the declarations where `synchronized` is followed by another keyword |
| Lck09j.AsWrittenMissesLeadingSynchronized | edu.csus.plugin.securecodingassistant/src/edu/csus/plugin/securecodingassistant/rules/LCK09J_DoNotPerformOperationsThatCanBlockWhileHoldingLock.java:58-63 | `synchronized public` around `Thread.sleep` is not flagged, though the intended check flags it |
| Lck09j.IntendedViolates | edu.csus.plugin.securecodingassistant/src/edu/csus/plugin/securecodingassistant/rules/LCK09J_DoNotPerformOperationsThatCanBlockWhileHoldingLock.java:53-63 | the corrected verdict: a blocking invocation whose nearest enclosing method declaration holds the `synchronized` keyword anywhere in its modifier list; no contract, `Lck09j.ViolatedAsIntended`, `Lck09j.IntendedIgnoresModifierOrder` and `Lck09j.AsWrittenMissesExactlySynchronizedNotLast` state its properties |
| Lck09j.ViolatedAsIntended | edu.csus.plugin.securecodingassistant/src/edu/csus/plugin/securecodingassistant/rules/LCK09J_DoNotPerformOperationsThatCanBlockWhileHoldingLock.java:53-63 | a scan that accumulates the flag over all keywords returns the intended verdict |
| Lck09j.IntendedIgnoresModifierOrder | edu.csus.plugin.securecodingassistant/src/edu/csus/plugin/securecodingassistant/rules/LCK09J_DoNotPerformOperationsThatCanBlockWhileHoldingLock.java:53 | the intended verdict is the same for any reordering of the modifier list |
| RuleIds.CodeIsInjective | edu.csus.plugin.securecodingassistant/src/edu/csus/plugin/securecodingassistant/rules/RuleFactory.java:26-55 | distinct rules have distinct identifiers |
| RuleIds.Category | edu.csus.plugin.securecodingassistant/src/edu/csus/plugin/securecodingassistant/rules/RuleFactory.java:25-54 | each rule's chapter of the standard is one of 00, 01, 02, 03, 04, 07, 09, 13, 16, 49 |
| RuleFactory.RuleList.constructor | edu.csus.plugin.securecodingassistant/src/edu/csus/plugin/securecodingassistant/rules/RuleFactory.java:23 | a new rule list is empty |
| RuleFactory.RuleList.Add | edu.csus.plugin.securecodingassistant/src/edu/csus/plugin/securecodingassistant/rules/RuleFactory.java:26 | appending puts the rule at the end and keeps the earlier entries |
| RuleFactory.AllRules | edu.csus.plugin.securecodingassistant/src/edu/csus/plugin/securecodingassistant/rules/RuleFactory.java:26-55 | the registration order holds exactly 14 rules |
| RuleFactory.GetAllRules | edu.csus.plugin.securecodingassistant/src/edu/csus/plugin/securecodingassistant/rules/RuleFactory.java:22-58 | the result is a newly allocated list whose contents are the 14 rules in registration order |
| RuleFactory.AllRulesDistinct | edu.csus.plugin.securecodingassistant/src/edu/csus/plugin/securecodingassistant/rules/RuleFactory.java:26-55 | no rule and no rule identifier appears twice |
| RuleFactory.RegisteredRules | edu.csus.plugin.securecodingassistant/src/edu/csus/plugin/securecodingassistant/rules/RuleFactory.java:26-55 | every known rule except LCK09-J is registered; LCK09-J is not |
| RuleFactory.AllRulesGroupedByChapter | edu.csus.plugin.securecodingassistant/src/edu/csus/plugin/securecodingassistant/rules/RuleFactory.java:25-54 | the list starts with IDS00-J, ends with MSC02-J, and its chapters never decrease (00, 01, 02, 03, 04, 07, 13, 16, 49) |
| RuleFactory.ResultsAreIndependent | edu.csus.plugin.securecodingassistant/src/edu/csus/plugin/securecodingassistant/rules/RuleFactory.java:23-57 | two calls return distinct lists, and appending to one leaves the other as registered |

## Findings

| source | as written | input that shows it | evidently intended | confidence | as-written member | corrected member |
|---|---|---|---|---|---|---|
| edu.csus.plugin.securecodingassistant/src/edu/csus/plugin/securecodingassistant/rules/LCK09J_DoNotPerformOperationsThatCanBlockWhileHoldingLock.java:58-63 | the loop reassigns `ruleViolated` at every keyword modifier, so only the last keyword decides | `synchronized public void run() { Thread.sleep(1); }` (also `public synchronized static`) is not flagged | flag a blocking call whenever the enclosing method is declared `synchronized` (line 53), whatever the keyword order | high, not executed | Lck09j.AsWrittenMissesLeadingSynchronized | Lck09j.ViolatedAsIntended |

`Lck09j.Violated` models the code as written. `Lck09j.ViolatedAsIntended` and
`Lck09j.IntendedViolates` give the corrected check. `Lck09j.AsWrittenMissesExactlySynchronizedNotLast`
shows that the code as written flags only intended violations. It also shows which
intended violations the code misses.

## Left out

- Lck09j.RuleName, Lck09j.RuleText, Lck09j.RuleRecommendation: these are the constant strings of `getRuleName`, `getRuleText` and `getRuleRecommendation`. They take no node, so they are node-independent by construction. Nothing is proved about their wording.
- The Eclipse JDT tree is reduced to node kinds and parent links. Children, source positions and type bindings are not modelled. `Class.getCanonicalName()` is replaced by the literal type names.
- The JDT keywords `sealed` and `non-sealed` are not in `Ast.ModifierKeyword`. They do not carry the SYNCHRONIZED bit, so they act like any other non-synchronized keyword.
- `Utility.calledMethod` and `Utility.getEnclosingNode` are given by the behaviour described above, not by their Java bodies.
- The two `IRule` interfaces hold no logic. `getSolutions` and `getICompilationUnit` are IDE editing plumbing. The interfaces disagree (`getRuleText`/`getRuleID` against `getRuleDescription`). LCK09-J implements the first set's text, name, recommendation and level, but no `getRuleID`.
- The other 14 rule classes, the driver that walks the tree and evaluates every rule, and the rendering of markers are not part of this model. The registry holds rules as identifier tags, not as objects.
- `Globals.Markers` is not part of this model. Its integer security-level constants are replaced by the `Globals.SecurityLevel` enumeration.
- Concurrent use of rule instances is not modelled.
