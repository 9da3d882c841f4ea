/** The contract of `BinaryHeap<HuffmanNode>` as src/HuffmanTree.java uses it:
    build from an array, `getSize`, `insert`, and `extractMin` under
    `HuffmanNode.compareTo`. The heap's own source is not part of this model,
    so the class keeps its elements in a sequence whose order carries no
    meaning; every contract is stated on the multiset of elements. */
module BinaryHeap {
  import opened Wrappers
  import opened HuffmanNode

  /** The position of a least element of `s` under `compareTo`. */
  method MinIndex(s: seq<Node>) returns (k: nat)
    requires |s| > 0
    ensures k < |s|
    ensures forall j :: 0 <= j < |s| ==> CompareTo(s[k], s[j]) <= 0
  {
    k := 0;
    var i := 1;
    while i < |s|
      invariant 0 <= k < i <= |s|
      invariant forall j :: 0 <= j < i ==> CompareTo(s[k], s[j]) <= 0
    {
      if CompareTo(s[i], s[k]) < 0 {
        forall j | 0 <= j < i
          ensures CompareTo(s[i], s[j]) <= 0
        {
          CompareToTransitive(s[i], s[k], s[j]);
        }
        k := i;
      } else {
        CompareToAntisymmetric(s[i], s[k]);
      }
      i := i + 1;
    }
  }

  class MinHeap {
    var items: seq<Node>

    /** `new BinaryHeap<>(nodes)`. */
    constructor (nodes: array<Node>)
      ensures multiset(items) == multiset(nodes[..])
    {
      items := nodes[..];
    }

    method GetSize() returns (n: nat)
      ensures n == |items|
    {
      n := |items|;
    }

    method Insert(x: Node)
      modifies this
      ensures multiset(items) == old(multiset(items)) + multiset{x}
      ensures |items| == old(|items|) + 1
    {
      items := items + [x];
    }

    /** Removes and returns a least element, or `None` when the heap is empty
        (the case in which `BinaryHeap.extractMin` fails). */
    method ExtractMin() returns (m: Option<Node>)
      modifies this
      ensures old(items) == [] ==> m == None && items == []
      ensures old(items) != [] ==> m.Some? && multiset(items) + multiset{m.value} == old(multiset(items))
      ensures old(items) != [] ==> |items| == old(|items|) - 1
      ensures old(items) != [] ==> forall x :: x in old(items) ==> CompareTo(m.value, x) <= 0
    {
      if items == [] {
        return None;
      }
      var k := MinIndex(items);
      m := Some(items[k]);
      assert items == items[..k] + [items[k]] + items[k + 1..];
      items := items[..k] + items[k + 1..];
    }
  }
}
