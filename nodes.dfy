/**
 * A graph vertex (src/Node.java): an immutable record holding one identifying string.
 * A Dafny datatype compares by value, as the record's `equals` does.
 */
module Nodes {

  /** A node carries only its identifying `value`. */
  datatype Node = Node(value: string)

  /** What `Node.equals(Object)` may be handed: the null reference, a node, or an object of some other class. */
  datatype Object = Null | NodeObject(node: Node) | OtherClass

  /** `Node.equals`: never equal to null or to another class; otherwise equal when the values are. */
  predicate Equals(n: Node, o: Object): (r: bool)
    ensures r <==> o.NodeObject? && o.node == n
  {
    match o
    case Null => false
    case OtherClass => false
    case NodeObject(other) => n.value == other.value
  }

  /** `Node.toString`: the node's own string. */
  function ToString(n: Node): (r: string)
    ensures Node(r) == n
  {
    n.value
  }

  /** Two nodes are equal exactly when their strings are, and `equals` is that same relation. */
  lemma EqualsIsValueEquality(a: Node, b: Node)
    ensures Equals(a, NodeObject(b)) <==> a.value == b.value
    ensures Equals(a, NodeObject(b)) <==> a == b
  {
  }

  /** `equals` is reflexive. */
  lemma EqualsReflexive(n: Node)
    ensures Equals(n, NodeObject(n))
  {
  }

  /** A node never equals `null` or an object of another class. */
  lemma EqualsRejectsNullAndOtherClasses(n: Node)
    ensures !Equals(n, Null)
    ensures !Equals(n, OtherClass)
  {
  }

  /** `toString` returns exactly the value, so it tells nodes apart. */
  lemma ToStringIsValue(a: Node, b: Node)
    ensures ToString(a) == a.value
    ensures ToString(a) == ToString(b) <==> a == b
  {
  }
}
