/**
 * The plugin's matching helpers (its Utility class), which the rules share.
 * Their Java bodies are not part of this model; they are given here by the
 * behaviour the rules rely on.
 */
module Utility {
  import opened Wrappers
  import opened Ast

  /**
   * Utility.calledMethod: the invocation calls the method `methodName`
   * declared by the type `typeName`, both matched exactly and case-sensitively.
   */
  predicate CalledMethod(invocation: NodeKind, typeName: string, methodName: string)
    requires invocation.MethodInvocation?
  {
    invocation.declaringType == typeName && invocation.methodName == methodName
  }

  /**
   * Utility.getEnclosingNode: walks up the parent links, starting at the
   * node's parent, to the first node that is an instance of `c`; None when
   * the root is passed without finding one.
   */
  function GetEnclosingNode(n: Node, c: NodeClass): (enclosing: Option<Node>)
    ensures enclosing.Some? ==> IsInstance(enclosing.value.kind, c)
    decreases n
  {
    match n.parent
    case None => None
    case Some(p) => if IsInstance(p.kind, c) then Some(p) else GetEnclosingNode(p, c)
  }

  /** The lookup finds nothing when no ancestor is of class `c`. */
  lemma {:induction false} EnclosingNodeAbsent(n: Node, c: NodeClass)
    requires forall i :: 0 <= i < |Ancestors(n)| ==> !IsInstance(Ancestors(n)[i].kind, c)
    ensures GetEnclosingNode(n, c) == None
    decreases n
  {
    match n.parent
    case None =>
    case Some(p) =>
      var chain := Ancestors(n);
      assert chain == [p] + Ancestors(p);
      assert !IsInstance(chain[0].kind, c);
      forall j | 0 <= j < |Ancestors(p)| ensures !IsInstance(Ancestors(p)[j].kind, c) {
        assert Ancestors(p)[j] == chain[j + 1];
      }
      EnclosingNodeAbsent(p, c);
  }

  /** Otherwise the lookup returns the nearest ancestor of class `c`, the first one met going up. */
  lemma {:induction false} EnclosingNodeIsNearest(n: Node, c: NodeClass, i: nat)
    requires i < |Ancestors(n)| && IsInstance(Ancestors(n)[i].kind, c)
    requires forall j :: 0 <= j < i ==> !IsInstance(Ancestors(n)[j].kind, c)
    ensures GetEnclosingNode(n, c) == Some(Ancestors(n)[i])
    decreases n
  {
    var p := n.parent.value;
    var chain := Ancestors(n);
    assert chain == [p] + Ancestors(p);
    if i > 0 {
      assert !IsInstance(chain[0].kind, c);
      forall j | 0 <= j < i - 1 ensures !IsInstance(Ancestors(p)[j].kind, c) {
        assert Ancestors(p)[j] == chain[j + 1];
      }
      assert Ancestors(p)[i - 1] == chain[i];
      EnclosingNodeIsNearest(p, c, i - 1);
    }
  }
}
