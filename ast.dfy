/**
 * An abstraction of the Eclipse JDT syntax tree, reduced to what the rules
 * inspect: the kind of a node, the modifier list of a method declaration,
 * and the link from a node to its parent.
 */
module Ast {
  import opened Wrappers

  /**
   * The modifier keywords of a Java declaration (JDT's
   * Modifier.ModifierKeyword), each with its flag bit.
   */
  datatype ModifierKeyword =
    | Public | Protected | Private | Static | Abstract | Final
    | Native | Synchronized | Transient | Volatile | Strictfp | Default
  {
    /** JDT's ModifierKeyword.toFlagValue(): one bit per keyword. */
    function FlagValue(): (flag: bv32)
      ensures flag != 0 && flag & (flag - 1) == 0
    {
      match this
      case Public => 0x1
      case Private => 0x2
      case Protected => 0x4
      case Static => 0x8
      case Final => 0x10
      case Synchronized => 0x20
      case Volatile => 0x40
      case Transient => 0x80
      case Native => 0x100
      case Abstract => 0x400
      case Strictfp => 0x800
      case Default => 0x1_0000
    }
  }

  /** JDT's Modifier.SYNCHRONIZED flag. */
  const SYNCHRONIZED: bv32 := 0x20

  /**
   * One entry of a declaration's modifier list: a keyword (a JDT Modifier)
   * or an annotation, which the list interleaves with the keywords.
   */
  datatype ModifierEntry = Keyword(keyword: ModifierKeyword) | Annotation

  /** What a node is, as far as the rules look at it. */
  datatype NodeKind =
    | MethodInvocation(declaringType: string, methodName: string)
    | MethodDeclaration(modifiers: seq<ModifierEntry>)
    | OtherNode

  /** The node classes that a rule asks an enclosing-node lookup for. */
  datatype NodeClass = MethodInvocationClass | MethodDeclarationClass

  /** Java's `instanceof` on a node's kind. */
  predicate IsInstance(kind: NodeKind, c: NodeClass)
  {
    match c
    case MethodInvocationClass => kind.MethodInvocation?
    case MethodDeclarationClass => kind.MethodDeclaration?
  }

  /**
   * A node together with its parent link; the root has no parent. Holding
   * the parent by value keeps every chain of parents finite.
   */
  datatype Node = Node(kind: NodeKind, parent: Option<Node>)

  /** The chain of a node's ancestors, its parent first and the root last. */
  function Ancestors(n: Node): (chain: seq<Node>)
    ensures n.parent.None? <==> chain == []
    ensures n.parent.Some? ==> chain[0] == n.parent.value
    ensures forall i :: 0 <= i < |chain| - 1 ==> chain[i].parent == Some(chain[i + 1])
    ensures chain != [] ==> chain[|chain| - 1].parent.None?
    decreases n
  {
    match n.parent
    case None => []
    case Some(p) => [p] + Ancestors(p)
  }
}
