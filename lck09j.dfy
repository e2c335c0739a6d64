/**
 * Rule LCK09-J of the CERT Oracle Secure Coding Standard for Java, "Do not
 * perform operations that can block while holding a lock": a call to
 * Thread.sleep, Socket.getOutputStream, Socket.getInputStream or
 * Console.readLine made from a synchronized method.
 */
module Lck09j {
  import opened Wrappers
  import opened Ast
  import opened Utility
  import Globals

  /** A method named by its declaring type's canonical name and its own name. */
  datatype Callee = Callee(declaringType: string, methodName: string)

  const THREAD: string := "java.lang.Thread"
  const SOCKET: string := "java.net.Socket"
  const CONSOLE: string := "java.io.Console"

  /** The calls the rule treats as blocking. */
  const BLOCKING_CALLS: seq<Callee> := [
    Callee(THREAD, "sleep"),
    Callee(SOCKET, "getOutputStream"),
    Callee(SOCKET, "getInputStream"),
    Callee(CONSOLE, "readLine")
  ]

  /** The test an invocation must pass before its context is looked at. */
  predicate IsBlockingCall(invocation: NodeKind)
    requires invocation.MethodInvocation?
  {
    || CalledMethod(invocation, THREAD, "sleep")
    || CalledMethod(invocation, SOCKET, "getOutputStream")
    || CalledMethod(invocation, SOCKET, "getInputStream")
    || CalledMethod(invocation, CONSOLE, "readLine")
  }

  /** An invocation is blocking exactly when its callee is one of the four catalogued ones. */
  lemma BlockingCallIffCatalogued(invocation: NodeKind)
    requires invocation.MethodInvocation?
    ensures IsBlockingCall(invocation)
      <==> Callee(invocation.declaringType, invocation.methodName) in BLOCKING_CALLS
  {
  }

  /** The test applied to each keyword modifier: is its SYNCHRONIZED bit set? */
  predicate HasSynchronizedFlag(k: ModifierKeyword)
  {
    k.FlagValue() & SYNCHRONIZED != 0
  }

  /** Of all modifier keywords, only `synchronized` carries the SYNCHRONIZED bit. */
  lemma SynchronizedFlagIffSynchronized(k: ModifierKeyword)
    ensures HasSynchronizedFlag(k) <==> k == Synchronized
  {
  }

  /** The keywords of a modifier list, in order, without its annotations. */
  function Keywords(mods: seq<ModifierEntry>): (keywords: seq<ModifierKeyword>)
    ensures |keywords| <= |mods|
    ensures forall k :: k in keywords <==> Keyword(k) in mods
  {
    if mods == [] then []
    else (if mods[0].Keyword? then [mods[0].keyword] else []) + Keywords(mods[1..])
  }

  /**
   * The last keyword of a modifier list, or None when it has no keyword:
   * the entry whose flag test the scan of the list leaves standing.
   */
  function LastKeyword(mods: seq<ModifierEntry>): (last: Option<ModifierKeyword>)
    ensures (forall i :: 0 <= i < |mods| ==> !mods[i].Keyword?) ==> last == None
    ensures last.Some? ==> Keyword(last.value) in mods
  {
    if mods == [] then None
    else if mods[|mods| - 1].Keyword? then Some(mods[|mods| - 1].keyword)
    else LastKeyword(mods[..|mods| - 1])
  }

  /** A keyword entry followed only by annotations is the one the scan leaves standing. */
  lemma {:induction false} LastKeywordWins(mods: seq<ModifierEntry>, i: nat)
    requires i < |mods| && mods[i].Keyword?
    requires forall j :: i < j < |mods| ==> !mods[j].Keyword?
    ensures LastKeyword(mods) == Some(mods[i].keyword)
    decreases |mods|
  {
    if i < |mods| - 1 {
      var init := mods[..|mods| - 1];
      assert init[i] == mods[i];
      assert forall j :: i < j < |init| ==> init[j] == mods[j];
      LastKeywordWins(init, i);
    }
  }

  /** The result of the modifier scan: the last keyword, if any, has the SYNCHRONIZED bit. */
  predicate LastKeywordSynchronized(mods: seq<ModifierEntry>)
  {
    match LastKeyword(mods)
    case None => false
    case Some(k) => HasSynchronizedFlag(k)
  }

  /** What `violated` decides for a node. */
  predicate Violates(n: Node)
  {
    && n.kind.MethodInvocation?
    && IsBlockingCall(n.kind)
    && match GetEnclosingNode(n, MethodDeclarationClass)
       case None => false
       case Some(d) => d.kind.MethodDeclaration? && LastKeywordSynchronized(d.kind.modifiers)
  }

  /**
   * The rule's check of one node. The flag starts false and is set only for a
   * blocking call with an enclosing method declaration, where every keyword
   * modifier of that declaration overwrites it in turn; annotations are passed over.
   */
  method Violated(node: Node) returns (ruleViolated: bool)
    ensures ruleViolated == Violates(node)
  {
    ruleViolated := false;
    if node.kind.MethodInvocation? {
      var invocation := node.kind;
      if CalledMethod(invocation, THREAD, "sleep")
        || CalledMethod(invocation, SOCKET, "getOutputStream")
        || CalledMethod(invocation, SOCKET, "getInputStream")
        || CalledMethod(invocation, CONSOLE, "readLine")
      {
        var encNode := GetEnclosingNode(node, MethodDeclarationClass);
        if encNode.Some? && encNode.value.kind.MethodDeclaration? {
          var modList := encNode.value.kind.modifiers;
          for i := 0 to |modList|
            invariant ruleViolated == LastKeywordSynchronized(modList[..i])
          {
            assert modList[..i + 1][..i] == modList[..i];
            if modList[i].Keyword? {
              ruleViolated := HasSynchronizedFlag(modList[i].keyword);
            }
          }
          assert modList[..|modList|] == modList;
        }
      }
    }
  }

  /** A node that is not a method invocation is never a violation. */
  lemma NonInvocationNotViolated(n: Node)
    requires !n.kind.MethodInvocation?
    ensures !Violates(n)
  {
  }

  /** An invocation of anything but the four blocking calls is never a violation, whatever encloses it. */
  lemma NonBlockingCallNotViolated(n: Node)
    requires n.kind.MethodInvocation?
    requires Callee(n.kind.declaringType, n.kind.methodName) !in BLOCKING_CALLS
    ensures !Violates(n)
  {
  }

  /** A blocking call with no method declaration among its ancestors is not a violation. */
  lemma NoEnclosingDeclarationNotViolated(n: Node)
    requires forall i :: 0 <= i < |Ancestors(n)| ==> !Ancestors(n)[i].kind.MethodDeclaration?
    ensures !Violates(n)
  {
    EnclosingNodeAbsent(n, MethodDeclarationClass);
  }

  /** The last keyword of a list is the last element of its keywords, and there is none when there are no keywords. */
  lemma {:induction false} LastKeywordIsLastOfKeywords(mods: seq<ModifierEntry>)
    ensures Keywords(mods) == [] <==> LastKeyword(mods) == None
    ensures Keywords(mods) != [] ==> LastKeyword(mods) == Some(Keywords(mods)[|Keywords(mods)| - 1])
    decreases |mods|
  {
    if mods != [] {
      var init, e := mods[..|mods| - 1], mods[|mods| - 1];
      assert mods == init + [e];
      LastKeywordIsLastOfKeywords(init);
      KeywordsOfAppend(init, e);
    }
  }

  /** Appending an entry appends its keyword, if it is one, to the keywords. */
  lemma {:induction false} KeywordsOfAppend(mods: seq<ModifierEntry>, e: ModifierEntry)
    ensures Keywords(mods + [e]) == Keywords(mods) + (if e.Keyword? then [e.keyword] else [])
    decreases |mods|
  {
    if mods != [] {
      assert (mods + [e])[1..] == mods[1..] + [e];
      KeywordsOfAppend(mods[1..], e);
    }
  }

  /**
   * For a blocking call whose nearest enclosing method declaration is `d`, the
   * rule fires exactly when the last keyword modifier of `d` is `synchronized`;
   * a declaration without keyword modifiers never makes it fire.
   */
  lemma ViolationIffLastKeywordSynchronized(n: Node, d: Node)
    requires n.kind.MethodInvocation? && IsBlockingCall(n.kind)
    requires GetEnclosingNode(n, MethodDeclarationClass) == Some(d)
    ensures Violates(n) <==> LastKeyword(d.kind.modifiers) == Some(Synchronized)
    ensures Keywords(d.kind.modifiers) == [] ==> !Violates(n)
  {
  }

  /** Appending a keyword makes it the last one; appending an annotation changes nothing. */
  lemma LastKeywordOfAppend(mods: seq<ModifierEntry>, e: ModifierEntry)
    ensures LastKeyword(mods + [e]) == if e.Keyword? then Some(e.keyword) else LastKeyword(mods)
  {
  }

  /** An annotation anywhere in a modifier list never changes which keyword is last. */
  lemma {:induction false} AnnotationNeverChangesLastKeyword(before: seq<ModifierEntry>, after: seq<ModifierEntry>)
    ensures LastKeyword(before + [Annotation] + after) == LastKeyword(before + after)
    decreases |after|
  {
    if after == [] {
      assert before + [Annotation] + after == before + [Annotation];
      assert before + after == before;
      LastKeywordOfAppend(before, Annotation);
    } else {
      var init, e := after[..|after| - 1], after[|after| - 1];
      AnnotationNeverChangesLastKeyword(before, init);
      assert before + [Annotation] + after == (before + [Annotation] + init) + [e];
      assert before + after == (before + init) + [e];
      LastKeywordOfAppend(before + [Annotation] + init, e);
      LastKeywordOfAppend(before + init, e);
    }
  }

  /**
   * Only the nearest enclosing declaration is inspected: a blocking call made
   * directly in a method declaration is judged by that declaration's modifiers,
   * whatever the declarations further out say.
   */
  lemma NearestDeclarationDecides(call: Node, inner: Node)
    requires call.kind.MethodInvocation? && IsBlockingCall(call.kind)
    requires call.parent == Some(inner) && inner.kind.MethodDeclaration?
    ensures Violates(call) <==> LastKeyword(inner.kind.modifiers) == Some(Synchronized)
  {
  }

  /**
   * A Thread.sleep call in an unsynchronized method of an anonymous class that
   * sits inside a synchronized method is not flagged; the same call placed
   * directly in the synchronized method is.
   */
  lemma InnerUnsynchronizedMethodNotFlagged(outerMods: seq<ModifierEntry>, innerMods: seq<ModifierEntry>)
    requires LastKeyword(outerMods) == Some(Synchronized)
    requires Keyword(Synchronized) !in innerMods
    ensures var outer := Node(MethodDeclaration(outerMods), None);
      var inner := Node(MethodDeclaration(innerMods), Some(Node(OtherNode, Some(outer))));
      && !Violates(Node(MethodInvocation(THREAD, "sleep"), Some(inner)))
      && Violates(Node(MethodInvocation(THREAD, "sleep"), Some(outer)))
  {
    var outer := Node(MethodDeclaration(outerMods), None);
    var inner := Node(MethodDeclaration(innerMods), Some(Node(OtherNode, Some(outer))));
    NearestDeclarationDecides(Node(MethodInvocation(THREAD, "sleep"), Some(inner)), inner);
    NearestDeclarationDecides(Node(MethodInvocation(THREAD, "sleep"), Some(outer)), outer);
  }

  /** getRuleName: the rule's title. */
  function RuleName(): string
  {
    "LCK09-J. Do not perform operations that can block while holding a lock"
  }

  /** getRuleText: the rule's rationale. */
  function RuleText(): string
  {
    "Holding locks while performing time-consuming or blocking operations can "
    + "severely degrade system performance and can result in starvation. "
    + "Furthermore, deadlock  can result if interdependent threads block "
    + "indefinitely. Blocking operations include network, file, and console "
    + "I/O (for example, Console.readLine()) and object serialization. "
    + "Deferring a thread indefinitely also constitutes a blocking operation. "
    + "Consequently, programs must not perform blocking operations while "
    + "holding a lock."
  }

  /** getRuleRecommendation: how to satisfy the rule. */
  function RuleRecommendation(): string
  {
    "Do not call Thread.sleep(), Socket.getOutputStream(), Socket.getInput"
    + "Stream(), or Console.readLine() from a synchronized method. Instead of "
    + "Thread.sleep(), try calling wait which immediately releases current monitor."
  }

  /** securityLevel: the rule's severity, the same for every node. */
  function SecurityLevel(): (level: Globals.SecurityLevel)
    ensures level == Globals.Low
  {
    Globals.Low
  }

  // The scan above keeps the verdict of the LAST keyword modifier only, so a
  // method whose `synchronized` keyword is followed by another keyword
  // (`synchronized public`, `public synchronized static`) is not flagged.
  // What the rule evidently intends follows.

  /** The declaration's modifier list contains the keyword `synchronized`, in any position. */
  predicate DeclaresSynchronized(mods: seq<ModifierEntry>)
  {
    Keyword(Synchronized) in mods
  }

  /** The intended verdict: a blocking call whose nearest enclosing method is declared synchronized. */
  predicate IntendedViolates(n: Node)
  {
    && n.kind.MethodInvocation?
    && IsBlockingCall(n.kind)
    && match GetEnclosingNode(n, MethodDeclarationClass)
       case None => false
       case Some(d) => d.kind.MethodDeclaration? && DeclaresSynchronized(d.kind.modifiers)
  }

  /** The check as intended: the scan accumulates the flag test over all keyword modifiers. */
  method ViolatedAsIntended(node: Node) returns (ruleViolated: bool)
    ensures ruleViolated == IntendedViolates(node)
  {
    ruleViolated := false;
    if node.kind.MethodInvocation? {
      var invocation := node.kind;
      if CalledMethod(invocation, THREAD, "sleep")
        || CalledMethod(invocation, SOCKET, "getOutputStream")
        || CalledMethod(invocation, SOCKET, "getInputStream")
        || CalledMethod(invocation, CONSOLE, "readLine")
      {
        var encNode := GetEnclosingNode(node, MethodDeclarationClass);
        if encNode.Some? && encNode.value.kind.MethodDeclaration? {
          var modList := encNode.value.kind.modifiers;
          for i := 0 to |modList|
            invariant ruleViolated == DeclaresSynchronized(modList[..i])
          {
            assert modList[..i + 1] == modList[..i] + [modList[i]];
            if modList[i].Keyword? {
              SynchronizedFlagIffSynchronized(modList[i].keyword);
              ruleViolated := ruleViolated || HasSynchronizedFlag(modList[i].keyword);
            }
          }
          assert modList[..|modList|] == modList;
        }
      }
    }
  }

  /** The intended verdict does not depend on the order in which the modifiers are written. */
  lemma IntendedIgnoresModifierOrder(mods1: seq<ModifierEntry>, mods2: seq<ModifierEntry>)
    requires multiset(mods1) == multiset(mods2)
    ensures DeclaresSynchronized(mods1) <==> DeclaresSynchronized(mods2)
  {
    assert Keyword(Synchronized) in mods1 <==> Keyword(Synchronized) in multiset(mods1);
    assert Keyword(Synchronized) in mods2 <==> Keyword(Synchronized) in multiset(mods2);
  }

  /**
   * The rule as written flags only intended violations, and it misses exactly
   * those whose declaration has `synchronized` followed by another keyword.
   */
  lemma AsWrittenMissesExactlySynchronizedNotLast(n: Node)
    ensures Violates(n) ==> IntendedViolates(n)
    ensures IntendedViolates(n) && !Violates(n) <==>
      && n.kind.MethodInvocation? && IsBlockingCall(n.kind)
      && GetEnclosingNode(n, MethodDeclarationClass).Some?
      && var mods := GetEnclosingNode(n, MethodDeclarationClass).value.kind.modifiers;
         DeclaresSynchronized(mods) && LastKeyword(mods) != Some(Synchronized)
  {
  }

  /** `synchronized public void run() { Thread.sleep(1); }` is not flagged, though it should be. */
  lemma AsWrittenMissesLeadingSynchronized()
    ensures var decl := Node(MethodDeclaration([Keyword(Synchronized), Keyword(Public)]), None);
      var call := Node(MethodInvocation(THREAD, "sleep"), Some(decl));
      !Violates(call) && IntendedViolates(call)
  {
  }
}
