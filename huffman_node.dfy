/** `HuffmanNode`, the node class nested in src/HuffmanTree.java: a leaf
    carries one symbol and its frequency; an internal node carries the
    concatenated symbols and the summed frequency of its two children. Nodes
    are never changed after construction, so they are values here. */
module HuffmanNode {
  import JavaText

  /** Both kinds of node store `symbols` and `frequency`, as the Java class
      does; a leaf has no children. */
  datatype Node =
    | Leaf(symbols: string, frequency: nat)
    | Internal(symbols: string, frequency: nat, left: Node, right: Node)

  /** The internal-node constructor. */
  function Merge(left: Node, right: Node): Node {
    Internal(left.symbols + right.symbols, left.frequency + right.frequency, left, right)
  }

  /** Every internal node below (and including) `n` was built by `Merge`. */
  ghost predicate WellFormed(n: Node) {
    match n
    case Leaf(_, _) => true
    case Internal(_, _, l, r) => n == Merge(l, r) && WellFormed(l) && WellFormed(r)
  }

  /** The leaves of `n`, left to right. */
  function Leaves(n: Node): seq<Node> {
    match n
    case Leaf(_, _) => [n]
    case Internal(_, _, l, r) => Leaves(l) + Leaves(r)
  }

  function ConcatSymbols(s: seq<Node>): string {
    if |s| == 0 then "" else s[0].symbols + ConcatSymbols(s[1..])
  }

  function SumFrequencies(s: seq<Node>): nat {
    if |s| == 0 then 0 else s[0].frequency + SumFrequencies(s[1..])
  }

  lemma {:induction false} ConcatSumAppend(a: seq<Node>, b: seq<Node>)
    ensures ConcatSymbols(a + b) == ConcatSymbols(a) + ConcatSymbols(b)
    ensures SumFrequencies(a + b) == SumFrequencies(a) + SumFrequencies(b)
    decreases |a|
  {
    if |a| > 0 {
      assert (a + b)[1..] == a[1..] + b;
      ConcatSumAppend(a[1..], b);
    } else {
      assert a + b == b;
    }
  }

  /** A node has at least one leaf, and every node `Leaves` lists is a leaf. */
  lemma {:induction false} LeavesAreLeaves(n: Node)
    ensures |Leaves(n)| > 0
    ensures forall i :: 0 <= i < |Leaves(n)| ==> Leaves(n)[i].Leaf?
  {
    match n
    case Leaf(_, _) =>
    case Internal(_, _, l, r) =>
      LeavesAreLeaves(l);
      LeavesAreLeaves(r);
  }

  /** In a well-formed node the stored symbols are the leaves' symbols in
      left-to-right order and the stored frequency is the leaves' total. */
  lemma {:induction false} WellFormedMeaning(n: Node)
    requires WellFormed(n)
    ensures n.symbols == ConcatSymbols(Leaves(n))
    ensures n.frequency == SumFrequencies(Leaves(n))
  {
    match n
    case Leaf(_, _) =>
    case Internal(_, _, l, r) =>
      WellFormedMeaning(l);
      WellFormedMeaning(r);
      ConcatSumAppend(Leaves(l), Leaves(r));
  }

  /** Merging keeps both children whole: the new node's leaves are the left
      child's followed by the right child's, so its symbols and frequency
      account for exactly the leaves below it. */
  lemma MergeConserves(left: Node, right: Node)
    requires WellFormed(left) && WellFormed(right)
    ensures WellFormed(Merge(left, right))
    ensures Leaves(Merge(left, right)) == Leaves(left) + Leaves(right)
    ensures Merge(left, right).symbols == ConcatSymbols(Leaves(left) + Leaves(right))
    ensures Merge(left, right).frequency == SumFrequencies(Leaves(left) + Leaves(right))
  {
    WellFormedMeaning(Merge(left, right));
  }

  /** `Double.compareTo` on the non-negative whole frequencies of the model. */
  function CompareFrequencies(x: nat, y: nat): int {
    if x < y then -1 else if x == y then 0 else 1
  }

  /** The intended node order: lower frequency first, and on equal frequency
      the lexicographically smaller symbol string first. */
  ghost predicate Precedes(a: Node, b: Node) {
    a.frequency < b.frequency || (a.frequency == b.frequency && JavaText.LexLess(a.symbols, b.symbols))
  }

  /** `HuffmanNode.compareTo`: negative exactly when `a` precedes `b`, and
      zero only when both frequency and symbols agree. */
  function CompareTo(a: Node, b: Node): (c: int)
    ensures c == 0 <==> a.frequency == b.frequency && a.symbols == b.symbols
    ensures c < 0 <==> Precedes(a, b)
  {
    JavaText.CompareStringsMeaning(a.symbols, b.symbols);
    var cmp := CompareFrequencies(a.frequency, b.frequency);
    if cmp != 0 then cmp else JavaText.CompareStrings(a.symbols, b.symbols)
  }

  /** Swapping the operands of `compareTo` negates the result. */
  lemma CompareToAntisymmetric(a: Node, b: Node)
    ensures CompareTo(b, a) == -CompareTo(a, b)
  {
    JavaText.CompareStringsMeaning(a.symbols, b.symbols);
  }

  /** `compareTo` is transitive, so a least node under it is well defined. */
  lemma CompareToTransitive(a: Node, b: Node, c: Node)
    requires CompareTo(a, b) <= 0 && CompareTo(b, c) <= 0
    ensures CompareTo(a, c) <= 0
  {
    if a.frequency == b.frequency == c.frequency {
      var x, y, z := a.symbols, b.symbols, c.symbols;
      JavaText.CompareStringsMeaning(x, y);
      JavaText.CompareStringsMeaning(y, z);
      if x != y && y != z {
        JavaText.CompareStringsTransitive(x, y, z);
      }
    }
  }
}
