/**
 * Nodes of the Huffman tree (HuffmanNode and HuffmanNodeComparator, huffman.hpp:93-212).
 * A child pointer is a `Tree`: `Null` is nullptr, a `Node` is an owned subtree.
 */
module Nodes {
  import opened Common

  datatype Tree = Null | Node(character: Option<Char>, count: int, left: Tree, right: Tree)

  /** The runtime errors a node query throws. */
  datatype NodeError =
    | NotFullBinary   // a node with exactly one child
    | NoCharacter     // the character of an internal node was asked for

  datatype Result<T> = Ok(value: T) | Err(error: NodeError)

  /** The leaf constructor: a character, its count, no children. */
  function MakeLeaf(c: Char, count: int): (t: Tree)
    ensures t.Node? && t.count == count
    ensures IsLeaf(t) == Ok(true) && GetCharacter(t) == Ok(c)
  {
    Node(Some(c), count, Null, Null)
  }

  /** The internal-node constructor: a count and two children, no character. */
  function MakeInternal(count: int, left: Tree, right: Tree): (t: Tree)
    ensures t.Node? && t.count == count && t.left == left && t.right == right
    ensures GetCharacter(t) == Err(NoCharacter)
    ensures left.Node? && right.Node? ==> IsLeaf(t) == Ok(false)
  {
    Node(None, count, left, right)
  }

  /** The character of a leaf; an internal node has none and the query throws. */
  function GetCharacter(t: Tree): (r: Result<Char>)
    requires t.Node?
    ensures r.Ok? <==> t.character.Some?
    ensures r.Ok? ==> r.value == t.character.value
    ensures r.Err? ==> r.error == NoCharacter
  {
    match t.character
    case Some(c) => Ok(c)
    case None => Err(NoCharacter)
  }

  /** A node is a leaf when both children are null; exactly one null child is a corrupt tree. */
  function IsLeaf(t: Tree): (r: Result<bool>)
    requires t.Node?
    ensures r == Ok(true) <==> t.left.Null? && t.right.Null?
    ensures r == Ok(false) <==> t.left.Node? && t.right.Node?
    ensures r.Err? <==> t.left.Null? != t.right.Null?
    ensures r.Err? ==> r.error == NotFullBinary
  {
    if t.left.Null? && t.right.Null? then Ok(true)
    else if t.left.Null? && t.right.Node? then Err(NotFullBinary)
    else if t.left.Node? && t.right.Null? then Err(NotFullBinary)
    else Ok(false)
  }

  /**
   * The priority order of the queue: true when `a` ranks BELOW `b`, that is when its count is
   * larger, so that the max-priority queue of the standard library yields the smallest count.
   */
  function Comparator(a: Tree, b: Tree): bool
    requires a.Node? && b.Node?
  {
    a.count > b.count
  }

  /**
   * The comparator is a strict weak ordering, as std::priority_queue requires: irreflexive,
   * asymmetric and transitive, and nodes of equal rank (neither below the other) rank with
   * the same nodes.
   */
  lemma ComparatorStrictWeakOrder(a: Tree, b: Tree, c: Tree)
    requires a.Node? && b.Node? && c.Node?
    ensures !Comparator(a, a)
    ensures Comparator(a, b) ==> !Comparator(b, a)
    ensures Comparator(a, b) && Comparator(b, c) ==> Comparator(a, c)
    ensures !Comparator(a, b) && !Comparator(b, a) && !Comparator(b, c) && !Comparator(c, b) ==>
      !Comparator(a, c) && !Comparator(c, a)
  {
  }

  /** A full binary tree whose leaves, and only its leaves, carry a character. */
  predicate WellFormed(t: Tree)
    decreases t
  {
    match t
    case Null => false
    case Node(ch, _, l, r) =>
      || (l.Null? && r.Null? && ch.Some?)
      || (l.Node? && r.Node? && ch.None? && WellFormed(l) && WellFormed(r))
  }

  /** Every internal node counts as many characters as its two children together. */
  predicate Weighted(t: Tree)
    decreases t
  {
    match t
    case Null => true
    case Node(_, count, l, r) =>
      l.Node? && r.Node? ==> count == l.count + r.count && Weighted(l) && Weighted(r)
  }

  /** The characters at the leaves, with multiplicity. */
  function Leaves(t: Tree): multiset<Char>
    decreases t
  {
    match t
    case Null => multiset{}
    case Node(ch, _, l, r) => (if ch.Some? then multiset{ch.value} else multiset{}) + Leaves(l) + Leaves(r)
  }

  /** No character sits at two leaves. */
  predicate DistinctLeaves(t: Tree) {
    forall c :: c in Leaves(t) ==> Leaves(t)[c] == 1
  }

  /** Below a node whose characters are distinct, each subtree's are too, and no character is in both. */
  lemma SubtreesDistinct(t: Tree)
    requires t.Node? && DistinctLeaves(t)
    ensures DistinctLeaves(t.left) && DistinctLeaves(t.right)
    ensures forall c :: c in Leaves(t.left) ==> c !in Leaves(t.right)
  {
    var l, r := t.left, t.right;
    forall c ensures Leaves(l)[c] + Leaves(r)[c] <= Leaves(t)[c] {
    }
  }

  /** The sum of the leaf counts. */
  function LeafTotal(t: Tree): int
    decreases t
  {
    match t
    case Null => 0
    case Node(_, count, l, r) => if l.Null? && r.Null? then count else LeafTotal(l) + LeafTotal(r)
  }

  /** Reading a path from the root: '0' goes left, '1' goes right; a leaf ends the path. */
  function Walk(t: Tree, path: string): Option<Char>
    requires WellFormed(t)
    decreases t
  {
    if t.left.Null? then (if path == [] then Some(t.character.value) else None)
    else if path == [] then None
    else if path[0] == '0' then Walk(t.left, path[1..])
    else if path[0] == '1' then Walk(t.right, path[1..])
    else None
  }

  /** On a well-formed node neither query throws, and a node is a leaf exactly when it has a character. */
  lemma WellFormedQueriesSucceed(t: Tree)
    requires WellFormed(t)
    ensures IsLeaf(t).Ok?
    ensures IsLeaf(t) == Ok(true) <==> GetCharacter(t).Ok?
  {
  }

  /** Weight conservation: a weighted tree's root counts the sum of its leaf counts. */
  lemma {:induction false} RootCountIsLeafTotal(t: Tree)
    requires WellFormed(t) && Weighted(t)
    ensures t.count == LeafTotal(t)
    decreases t
  {
    if t.left.Node? {
      RootCountIsLeafTotal(t.left);
      RootCountIsLeafTotal(t.right);
    }
  }
}
