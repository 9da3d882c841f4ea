/** Building the Huffman tree (src/HuffmanTree.java): `freqToHeap` turns the
    frequency table into one leaf per symbol inside a heap, and
    `createFromHeap` merges the two least nodes until one is left. */
module HuffmanTree {
  import opened Wrappers
  import opened HuffmanNode
  import opened BinaryHeap
  import JavaText

  /** The exceptions the build can end in: `ArrayIndexOutOfBoundsException`
      on a table with an odd number of tokens, `NumberFormatException` from
      `Double.valueOf`, and the failure of `extractMin` on an empty heap,
      which only `createFromHeap` given an empty heap reaches. */
  datatype Error = IndexOutOfBounds(index: nat) | NumberFormat(token: string) | EmptyHeap

  /** A `HuffmanTree` object: its root never changes after construction. */
  datatype Tree = Tree(root: Node)

  // ---------------------------------------------------------------------
  // freqToHeap

  /** Token 2k of the table, the k-th symbol. */
  function SymbolToken(tokens: seq<string>, k: nat): string
    requires 2 * k < |tokens|
  {
    tokens[2 * k]
  }

  /** Token 2k+1 of the table, the k-th frequency. */
  function FrequencyToken(tokens: seq<string>, k: nat): string
    requires 2 * k + 1 < |tokens|
  {
    tokens[2 * k + 1]
  }

  /** The leaves the loop of `freqToHeap` makes from `tokens[i..]`, or the
      exception it stops at. `parse` stands for `Double.valueOf`. */
  function LeavesFrom(tokens: seq<string>, parse: string -> Option<nat>, i: nat): Result<seq<Node>, Error>
    requires i <= |tokens|
    decreases |tokens| - i
  {
    if i == |tokens| then Ok([])
    else if i + 1 == |tokens| then Err(IndexOutOfBounds(i + 1))
    else
      match parse(tokens[i + 1])
      case None => Err(NumberFormat(tokens[i + 1]))
      case Some(f) =>
        match LeavesFrom(tokens, parse, i + 2)
        case Err(e) => Err(e)
        case Ok(rest) => Ok([Leaf(tokens[i], f)] + rest)
  }

  /** The leaves `freqToHeap` makes from the whole table. */
  function ParseTable(tokens: seq<string>, parse: string -> Option<nat>): Result<seq<Node>, Error> {
    LeavesFrom(tokens, parse, 0)
  }

  /** `LeavesFrom` from pair `m` on: it succeeds exactly when the count of
      tokens is even and every remaining frequency token parses; it then
      holds one leaf per pair, symbol from token 2k and frequency from token
      2k+1; otherwise it fails at the first frequency token that does not
      parse, or, if there is none, at the missing token after the last. */
  lemma {:induction false} LeavesFromMeaning(tokens: seq<string>, parse: string -> Option<nat>, m: nat)
    requires 2 * m <= |tokens|
    ensures LeavesFrom(tokens, parse, 2 * m).Ok? <==>
      |tokens| % 2 == 0 && forall k :: m <= k < |tokens| / 2 ==> parse(FrequencyToken(tokens, k)).Some?
    ensures LeavesFrom(tokens, parse, 2 * m).Ok? ==>
      var v := LeavesFrom(tokens, parse, 2 * m).value;
      |v| == |tokens| / 2 - m &&
      forall k :: m <= k < |tokens| / 2 ==>
        v[k - m] == Leaf(SymbolToken(tokens, k), parse(FrequencyToken(tokens, k)).value)
    ensures forall k :: m <= k < |tokens| / 2 && parse(FrequencyToken(tokens, k)).None? &&
                        (forall j :: m <= j < k ==> parse(FrequencyToken(tokens, j)).Some?) ==>
      LeavesFrom(tokens, parse, 2 * m) == Err(NumberFormat(FrequencyToken(tokens, k)))
    ensures |tokens| % 2 == 1 && (forall k :: m <= k < |tokens| / 2 ==> parse(FrequencyToken(tokens, k)).Some?) ==>
      LeavesFrom(tokens, parse, 2 * m) == Err(IndexOutOfBounds(|tokens|))
    decreases |tokens| - 2 * m
  {
    var i := 2 * m;
    if i + 1 < |tokens| {
      LeavesFromMeaning(tokens, parse, m + 1);
      assert tokens[i + 1] == FrequencyToken(tokens, m) && tokens[i] == SymbolToken(tokens, m);
    }
  }

  /** The whole table: one leaf per symbol/frequency pair, in table order, or
      the exception `freqToHeap` throws. */
  lemma ParseTableMeaning(tokens: seq<string>, parse: string -> Option<nat>)
    ensures ParseTable(tokens, parse).Ok? <==>
      |tokens| % 2 == 0 && forall k :: 0 <= k < |tokens| / 2 ==> parse(FrequencyToken(tokens, k)).Some?
    ensures ParseTable(tokens, parse).Ok? ==>
      var v := ParseTable(tokens, parse).value;
      |v| == |tokens| / 2 &&
      forall k :: 0 <= k < |tokens| / 2 ==>
        v[k] == Leaf(SymbolToken(tokens, k), parse(FrequencyToken(tokens, k)).value)
    ensures forall k :: 0 <= k < |tokens| / 2 && parse(FrequencyToken(tokens, k)).None? &&
                        (forall j :: 0 <= j < k ==> parse(FrequencyToken(tokens, j)).Some?) ==>
      ParseTable(tokens, parse) == Err(NumberFormat(FrequencyToken(tokens, k)))
    ensures |tokens| % 2 == 1 && (forall k :: 0 <= k < |tokens| / 2 ==> parse(FrequencyToken(tokens, k)).Some?) ==>
      ParseTable(tokens, parse) == Err(IndexOutOfBounds(|tokens|))
  {
    LeavesFromMeaning(tokens, parse, 0);
  }

  /** The loop of `freqToHeap` only ever stops at one of its two
      exceptions. */
  lemma {:induction false} LeavesFromErrors(tokens: seq<string>, parse: string -> Option<nat>, i: nat)
    requires i <= |tokens|
    ensures LeavesFrom(tokens, parse, i).Err? ==> LeavesFrom(tokens, parse, i).error != EmptyHeap
    decreases |tokens| - i
  {
    if i + 1 < |tokens| && parse(tokens[i + 1]).Some? {
      LeavesFromErrors(tokens, parse, i + 2);
    }
  }

  /** A table read from any text never parses to zero leaves: `split` never
      yields zero tokens, one token is an odd count, and two or more make
      at least one leaf. Nor does it fail with the heap's exception. */
  lemma TableNeverEmpty(legend: string, parse: string -> Option<nat>)
    ensures ParseTable(JavaText.Tokenize(legend), parse) != Ok([])
    ensures ParseTable(JavaText.Tokenize(legend), parse) != Err(EmptyHeap)
  {
    var tokens := JavaText.Tokenize(legend);
    JavaText.TokenizeNonEmpty(legend);
    ParseTableMeaning(tokens, parse);
    LeavesFromErrors(tokens, parse, 0);
  }

  /** `p` followed by the leaves of `r`, or the failure of `r`. */
  function Prefixed(p: seq<Node>, r: Result<seq<Node>, Error>): Result<seq<Node>, Error> {
    match r
    case Ok(v) => Ok(p + v)
    case Err(e) => Err(e)
  }

  lemma PrefixedEmpty(r: Result<seq<Node>, Error>)
    ensures Prefixed([], r) == r
  {
    if r.Ok? {
      assert [] + r.value == r.value;
    }
  }

  lemma PrefixedAppend(p: seq<Node>, q: seq<Node>, r: Result<seq<Node>, Error>)
    ensures Prefixed(p, Prefixed(q, r)) == Prefixed(p + q, r)
  {
    if r.Ok? {
      assert p + (q + r.value) == (p + q) + r.value;
    }
  }

  /** `freqToHeap`: fills an array with one leaf per pair of tokens and wraps
      it in a heap. */
  method FreqToHeap(legend: string, parse: string -> Option<nat>) returns (r: Result<MinHeap, Error>)
    ensures r.Ok? <==> ParseTable(JavaText.Tokenize(legend), parse).Ok?
    ensures r.Err? ==> r.error == ParseTable(JavaText.Tokenize(legend), parse).error
    ensures r.Ok? ==>
      fresh(r.value) && multiset(r.value.items) == multiset(ParseTable(JavaText.Tokenize(legend), parse).value)
  {
    var tokens := JavaText.Tokenize(legend);
    var nodes := new Node[|tokens| / 2];
    var idx := 0;
    var i := 0;
    assert nodes[..0] == [];
    PrefixedEmpty(LeavesFrom(tokens, parse, 0));
    while i < |tokens|
      invariant i % 2 == 0 && i <= |tokens| && idx == i / 2 && idx <= nodes.Length
      invariant ParseTable(tokens, parse) == Prefixed(nodes[..idx], LeavesFrom(tokens, parse, i))
      decreases |tokens| - i
    {
      var sym := tokens[i];
      if i + 1 >= |tokens| {
        return Err(IndexOutOfBounds(i + 1));
      }
      var freq := parse(tokens[i + 1]);
      if freq.None? {
        return Err(NumberFormat(tokens[i + 1]));
      }
      ghost var before := nodes[..idx];
      nodes[idx] := Leaf(sym, freq.value);
      assert nodes[..idx + 1] == before + [Leaf(sym, freq.value)];
      PrefixedAppend(before, [Leaf(sym, freq.value)], LeavesFrom(tokens, parse, i + 2));
      idx, i := idx + 1, i + 2;
    }
    assert nodes[..] == nodes[..idx];
    var heap := new MinHeap(nodes);
    return Ok(heap);
  }

  // ---------------------------------------------------------------------
  // createFromHeap

  /** All the leaves below the nodes of `s`, counted with multiplicity. */
  function LeafBag(s: seq<Node>): multiset<Node> {
    if |s| == 0 then multiset{} else multiset(Leaves(s[0])) + LeafBag(s[1..])
  }

  ghost predicate AllWellFormed(s: seq<Node>) {
    forall x :: x in s ==> WellFormed(x)
  }

  /** `n` is one of the `inputs`, or a merge of two nodes with the same
      property, the one taken from the heap first (the smaller under
      `compareTo`) on the left. */
  ghost predicate BuiltFrom(n: Node, inputs: multiset<Node>) {
    n in inputs ||
    (n.Internal? && n == Merge(n.left, n.right) && CompareTo(n.left, n.right) <= 0 &&
     BuiltFrom(n.left, inputs) && BuiltFrom(n.right, inputs))
  }

  /** `m` is one of the nodes of `pool` and least among them under
      `compareTo`: a node `extractMin` may return. */
  ghost predicate LeastIn(m: Node, pool: multiset<Node>) {
    m in pool && forall x :: x in pool ==> CompareTo(m, x) <= 0
  }

  /** `root` is a node the loop of `createFromHeap` can end with when the
      heap holds `pool`: either `pool` is `root` alone, or a least node `a`
      is taken out, then a least node `b` of what is left, and the loop
      goes on with their merge put back in their place. */
  ghost predicate HuffmanRun(pool: multiset<Node>, root: Node)
    decreases |pool|
  {
    pool == multiset{root} ||
    (|pool| > 1 &&
     exists a, b :: LeastIn(a, pool) && LeastIn(b, pool - multiset{a}) &&
       HuffmanRun(pool - multiset{a} - multiset{b} + multiset{Merge(a, b)}, root))
  }

  /** A single node is a run that has already finished. */
  lemma RunOfSelf(root: Node)
    ensures HuffmanRun(multiset{root}, root)
  {
  }

  /** One turn of the loop: any end reachable after the merge of the two
      least nodes is reachable from before it. */
  lemma RunStep(before: multiset<Node>, a: Node, b: Node, root: Node)
    requires LeastIn(a, before) && LeastIn(b, before - multiset{a})
    requires HuffmanRun(before - multiset{a} - multiset{b} + multiset{Merge(a, b)}, root)
    ensures HuffmanRun(before, root)
  {
    assert |before - multiset{a}| == |before| - 1;
  }

  // Three leaves whose frequencies leave the loop no choice.
  const LeafA := Leaf("A", 1)
  const LeafB := Leaf("B", 2)
  const LeafC := Leaf("C", 3)

  lemma LeastOfABC(x: Node)
    requires LeastIn(x, multiset{LeafA, LeafB, LeafC})
    ensures x == LeafA
  {
    assert CompareTo(LeafB, LeafA) > 0 && CompareTo(LeafC, LeafA) > 0;
  }

  lemma LeastOfBC(x: Node)
    requires LeastIn(x, multiset{LeafA, LeafB, LeafC} - multiset{LeafA})
    ensures x == LeafB
  {
    assert multiset{LeafA, LeafB, LeafC} - multiset{LeafA} == multiset{LeafB, LeafC};
    assert CompareTo(LeafC, LeafB) > 0;
  }

  /** The merge of A and B (frequency 3, symbols "AB") comes before C
      (frequency 3, symbols "C"). */
  lemma LeastOfABAndC(x: Node)
    requires LeastIn(x, multiset{Merge(LeafA, LeafB), LeafC})
    ensures x == Merge(LeafA, LeafB)
  {
    assert JavaText.CompareStrings("C", "AB") > 0;
    assert CompareTo(LeafC, Merge(LeafA, LeafB)) > 0;
  }

  lemma LeastOfC(x: Node)
    requires LeastIn(x, multiset{Merge(LeafA, LeafB), LeafC} - multiset{Merge(LeafA, LeafB)})
    ensures x == LeafC
  {
    assert multiset{Merge(LeafA, LeafB), LeafC} - multiset{Merge(LeafA, LeafB)} == multiset{LeafC};
  }

  /** A single node is a finished run ending in that node alone. */
  lemma RunOfOne(root: Node, t: Node)
    requires HuffmanRun(multiset{root}, t)
    ensures t == root
  {
    assert |multiset{root}| == 1;
    assert root in multiset{t};
  }

  /** When the two least nodes of a pool are unique, every run from the pool
      starts by merging them. */
  lemma RunFirstStep(pool: multiset<Node>, a: Node, b: Node, t: Node)
    requires HuffmanRun(pool, t) && |pool| > 1
    requires forall x :: LeastIn(x, pool) ==> x == a
    requires forall y :: LeastIn(y, pool - multiset{a}) ==> y == b
    ensures HuffmanRun(pool - multiset{a} - multiset{b} + multiset{Merge(a, b)}, t)
  {
    assert pool != multiset{t} by {
      assert |multiset{t}| == 1;
    }
  }

  lemma PoolAfterAB()
    ensures multiset{LeafA, LeafB, LeafC} - multiset{LeafA} - multiset{LeafB} + multiset{Merge(LeafA, LeafB)}
      == multiset{Merge(LeafA, LeafB), LeafC}
  {
    assert multiset{LeafA, LeafB, LeafC} - multiset{LeafA} - multiset{LeafB} == multiset{LeafC};
  }

  /** From {A, B, C} the only first step merges A and B. */
  lemma RunOfABC(t: Node)
    requires HuffmanRun(multiset{LeafA, LeafB, LeafC}, t)
    ensures HuffmanRun(multiset{Merge(LeafA, LeafB), LeafC}, t)
  {
    var p1 := multiset{LeafA, LeafB, LeafC};
    forall x | LeastIn(x, p1) ensures x == LeafA {
      LeastOfABC(x);
    }
    forall y | LeastIn(y, p1 - multiset{LeafA}) ensures y == LeafB {
      LeastOfBC(y);
    }
    PoolAfterAB();
    RunFirstStep(p1, LeafA, LeafB, t);
  }

  lemma PoolAfterABAndC()
    ensures multiset{Merge(LeafA, LeafB), LeafC} - multiset{Merge(LeafA, LeafB)} - multiset{LeafC}
      + multiset{Merge(Merge(LeafA, LeafB), LeafC)} == multiset{Merge(Merge(LeafA, LeafB), LeafC)}
  {
    assert multiset{Merge(LeafA, LeafB), LeafC} - multiset{Merge(LeafA, LeafB)} == multiset{LeafC};
  }

  /** From {A+B, C} the only step merges A+B with C. */
  lemma RunOfABAndC(t: Node)
    requires HuffmanRun(multiset{Merge(LeafA, LeafB), LeafC}, t)
    ensures t == Merge(Merge(LeafA, LeafB), LeafC)
  {
    var p3 := multiset{Merge(LeafA, LeafB), LeafC};
    forall x | LeastIn(x, p3) ensures x == Merge(LeafA, LeafB) {
      LeastOfABAndC(x);
    }
    forall y | LeastIn(y, p3 - multiset{Merge(LeafA, LeafB)}) ensures y == LeafC {
      LeastOfC(y);
    }
    PoolAfterABAndC();
    RunFirstStep(p3, Merge(LeafA, LeafB), LeafC, t);
    RunOfOne(Merge(Merge(LeafA, LeafB), LeafC), t);
  }

  lemma LeastPairs()
    ensures LeastIn(LeafA, multiset{LeafA, LeafB, LeafC})
    ensures LeastIn(LeafB, multiset{LeafA, LeafB, LeafC} - multiset{LeafA})
    ensures LeastIn(Merge(LeafA, LeafB), multiset{Merge(LeafA, LeafB), LeafC})
    ensures LeastIn(LeafC, multiset{Merge(LeafA, LeafB), LeafC} - multiset{Merge(LeafA, LeafB)})
  {
    assert multiset{LeafA, LeafB, LeafC} - multiset{LeafA} == multiset{LeafB, LeafC};
    assert multiset{Merge(LeafA, LeafB), LeafC} - multiset{Merge(LeafA, LeafB)} == multiset{LeafC};
    assert JavaText.CompareStrings("AB", "C") < 0;
  }

  /** The greedy run from {A, B, C} does reach `Merge(Merge(A, B), C)`. */
  lemma RunOfABCReachesRoot()
    ensures HuffmanRun(multiset{LeafA, LeafB, LeafC}, Merge(Merge(LeafA, LeafB), LeafC))
  {
    var root := Merge(Merge(LeafA, LeafB), LeafC);
    RunOfSelf(root);
    LeastPairs();
    PoolAfterABAndC();
    RunStep(multiset{Merge(LeafA, LeafB), LeafC}, Merge(LeafA, LeafB), LeafC, root);
    PoolAfterAB();
    RunStep(multiset{LeafA, LeafB, LeafC}, LeafA, LeafB, root);
  }

  /** For leaves A/1, B/2 and C/3 the loop of `createFromHeap` ends with
      `Merge(Merge(A, B), C)` and with nothing else. */
  lemma HuffmanRunExample(t: Node)
    ensures HuffmanRun(multiset{LeafA, LeafB, LeafC}, t) <==> t == Merge(Merge(LeafA, LeafB), LeafC)
  {
    if HuffmanRun(multiset{LeafA, LeafB, LeafC}, t) {
      RunOfABC(t);
      RunOfABAndC(t);
    }
    RunOfABCReachesRoot();
  }

  lemma {:induction false} BagAppend(a: seq<Node>, b: seq<Node>)
    ensures LeafBag(a + b) == LeafBag(a) + LeafBag(b)
    ensures SumFrequencies(a + b) == SumFrequencies(a) + SumFrequencies(b)
    decreases |a|
  {
    if |a| == 0 {
      assert a + b == b;
    } else {
      assert (a + b)[1..] == a[1..] + b;
      BagAppend(a[1..], b);
    }
  }

  /** The first element of `a` sits somewhere in any permutation `b` of
      `a`, and the rests are permutations of each other. */
  lemma FindInPermutation<T>(a: seq<T>, b: seq<T>) returns (k: nat)
    requires |a| > 0 && multiset(a) == multiset(b)
    ensures k < |b| && b[k] == a[0]
    ensures multiset(a[1..]) == multiset(b[..k] + b[k + 1..])
  {
    var x := a[0];
    assert x in multiset(b);
    k :| 0 <= k < |b| && b[k] == x;
    var rest := b[..k] + b[k + 1..];
    assert multiset(b) == multiset(rest) + multiset{x} by {
      assert b == b[..k] + [x] + b[k + 1..];
    }
    assert multiset(a) == multiset(a[1..]) + multiset{x} by {
      assert a == [x] + a[1..];
    }
    forall y
      ensures multiset(a[1..])[y] == multiset(rest)[y]
    {
      assert multiset(a)[y] == multiset(b)[y];
    }
  }

  lemma BagCons(x: Node, t: seq<Node>)
    ensures LeafBag([x] + t) == multiset(Leaves(x)) + LeafBag(t)
    ensures SumFrequencies([x] + t) == x.frequency + SumFrequencies(t)
  {
    assert ([x] + t)[1..] == t;
  }

  /** Taking `x` out from between `before` and `after` takes its leaves out
      of their leaves. */
  lemma {:induction false} BagSplit(before: seq<Node>, x: Node, after: seq<Node>)
    ensures LeafBag(before + [x] + after) == multiset(Leaves(x)) + LeafBag(before + after)
    decreases |before|
  {
    if |before| == 0 {
      assert before + [x] + after == [x] + after;
      assert before + after == after;
      BagCons(x, after);
    } else {
      var y, rest := before[0], before[1..];
      assert LeafBag(before + [x] + after) == multiset(Leaves(y)) + LeafBag(rest + [x] + after) by {
        assert (before + [x] + after)[1..] == rest + [x] + after;
      }
      assert LeafBag(before + after) == multiset(Leaves(y)) + LeafBag(rest + after) by {
        assert (before + after)[1..] == rest + after;
      }
      BagSplit(rest, x, after);
    }
  }

  /** Taking `x` out from between `before` and `after` takes its frequency
      out of their weight. */
  lemma {:induction false} SumSplit(before: seq<Node>, x: Node, after: seq<Node>)
    ensures SumFrequencies(before + [x] + after) == x.frequency + SumFrequencies(before + after)
    decreases |before|
  {
    if |before| == 0 {
      assert before + [x] + after == [x] + after;
      assert before + after == after;
      BagCons(x, after);
    } else {
      var y, rest := before[0], before[1..];
      assert SumFrequencies(before + [x] + after) == y.frequency + SumFrequencies(rest + [x] + after) by {
        assert (before + [x] + after)[1..] == rest + [x] + after;
      }
      assert SumFrequencies(before + after) == y.frequency + SumFrequencies(rest + after) by {
        assert (before + after)[1..] == rest + after;
      }
      SumSplit(rest, x, after);
    }
  }

  lemma {:induction false} LeafBagPermutation(a: seq<Node>, b: seq<Node>)
    requires multiset(a) == multiset(b)
    ensures LeafBag(a) == LeafBag(b)
    decreases |a|
  {
    if |a| == 0 {
      assert |b| == |multiset(b)| == 0;
    } else {
      var k := FindInPermutation(a, b);
      var rest := b[..k] + b[k + 1..];
      assert LeafBag(a[1..]) == LeafBag(rest) by {
        LeafBagPermutation(a[1..], rest);
      }
      assert LeafBag(b) == multiset(Leaves(b[k])) + LeafBag(rest) by {
        assert b == b[..k] + [b[k]] + b[k + 1..];
        BagSplit(b[..k], b[k], b[k + 1..]);
      }
    }
  }

  lemma {:induction false} SumPermutation(a: seq<Node>, b: seq<Node>)
    requires multiset(a) == multiset(b)
    ensures SumFrequencies(a) == SumFrequencies(b)
    decreases |a|
  {
    if |a| == 0 {
      assert |b| == |multiset(b)| == 0;
    } else {
      var k := FindInPermutation(a, b);
      var rest := b[..k] + b[k + 1..];
      assert SumFrequencies(a[1..]) == SumFrequencies(rest) by {
        SumPermutation(a[1..], rest);
      }
      assert SumFrequencies(b) == b[k].frequency + SumFrequencies(rest) by {
        assert b == b[..k] + [b[k]] + b[k + 1..];
        SumSplit(b[..k], b[k], b[k + 1..]);
      }
    }
  }

  /** The leaves and the weight of a collection of nodes do not depend on the
      order the nodes are kept in. */
  lemma BagPermutation(a: seq<Node>, b: seq<Node>)
    requires multiset(a) == multiset(b)
    ensures LeafBag(a) == LeafBag(b)
    ensures SumFrequencies(a) == SumFrequencies(b)
  {
    LeafBagPermutation(a, b);
    SumPermutation(a, b);
  }

  /** Taking `x` out of a heap takes its leaves and its frequency out of the
      heap's leaves and weight. */
  lemma BagRemove(s: seq<Node>, t: seq<Node>, x: Node)
    requires multiset(s) == multiset(t) + multiset{x}
    ensures LeafBag(s) == LeafBag(t) + multiset(Leaves(x))
    ensures SumFrequencies(s) == SumFrequencies(t) + x.frequency
  {
    var tx := t + [x];
    assert multiset(s) == multiset(tx);
    assert tx == t + [x] + [] && t == t + [];
    assert LeafBag(s) == LeafBag(t) + multiset(Leaves(x)) by {
      LeafBagPermutation(s, tx);
      BagSplit(t, x, []);
    }
    assert SumFrequencies(s) == SumFrequencies(t) + x.frequency by {
      SumPermutation(s, tx);
      SumSplit(t, x, []);
    }
  }

  /** Where the nodes of the heap come from in one turn of the loop of
      `createFromHeap`. */
  lemma MergeStepMembers(before: seq<Node>, middle: seq<Node>, after: seq<Node>, now: seq<Node>,
                         a: Node, b: Node)
    requires multiset(middle) + multiset{a} == multiset(before)
    requires multiset(after) + multiset{b} == multiset(middle)
    requires multiset(now) == multiset(after) + multiset{Merge(a, b)}
    ensures a in before && b in before
    ensures forall x :: x in now ==> x == Merge(a, b) || x in before
  {
    assert a in multiset(before);
    assert b in multiset(middle);
    assert b in multiset(before);
    forall x | x in now
      ensures x == Merge(a, b) || x in before
    {
      assert x in multiset(now);
      if x != Merge(a, b) {
        assert x in multiset(after);
        assert x in multiset(middle);
        assert x in multiset(before);
      }
    }
  }

  /** One turn of the loop of `createFromHeap` (take out `a`, the least
      node, then `b`, put back their merge) keeps the heap's leaves and
      weight, and every node in it is still built from the inputs. */
  lemma MergeStep(before: seq<Node>, middle: seq<Node>, after: seq<Node>, now: seq<Node>,
                  a: Node, b: Node, inputs: multiset<Node>)
    requires multiset(middle) + multiset{a} == multiset(before)
    requires multiset(after) + multiset{b} == multiset(middle)
    requires multiset(now) == multiset(after) + multiset{Merge(a, b)}
    requires forall x :: x in before ==> CompareTo(a, x) <= 0
    requires forall x :: x in before ==> BuiltFrom(x, inputs)
    ensures LeafBag(now) == LeafBag(before)
    ensures SumFrequencies(now) == SumFrequencies(before)
    ensures forall x :: x in now ==> BuiltFrom(x, inputs)
    ensures AllWellFormed(before) ==> AllWellFormed(now)
  {
    assert LeafBag(now) == LeafBag(before) && SumFrequencies(now) == SumFrequencies(before) by {
      BagRemove(before, middle, a);
      BagRemove(middle, after, b);
      BagRemove(now, after, Merge(a, b));
      assert multiset(Leaves(Merge(a, b))) == multiset(Leaves(a)) + multiset(Leaves(b));
    }
    MergeStepMembers(before, middle, after, now, a, b);
    assert BuiltFrom(Merge(a, b), inputs);
    if AllWellFormed(before) {
      assert WellFormed(Merge(a, b));
    }
  }

  /** One turn of the loop of `createFromHeap`, taking out `a`, the least
      node, then `b`, the least remaining one, and putting back their merge,
      keeps every end the loop can reach one it could reach from the
      start. */
  lemma MergeStepRun(before: seq<Node>, middle: seq<Node>, after: seq<Node>, now: seq<Node>,
                     a: Node, b: Node, inputs: multiset<Node>)
    requires multiset(middle) + multiset{a} == multiset(before)
    requires multiset(after) + multiset{b} == multiset(middle)
    requires multiset(now) == multiset(after) + multiset{Merge(a, b)}
    requires forall x :: x in before ==> CompareTo(a, x) <= 0
    requires forall x :: x in middle ==> CompareTo(b, x) <= 0
    requires forall t :: HuffmanRun(multiset(before), t) ==> HuffmanRun(inputs, t)
    ensures forall t :: HuffmanRun(multiset(now), t) ==> HuffmanRun(inputs, t)
  {
    var pool := multiset(before);
    assert LeastIn(a, pool) && pool - multiset{a} == multiset(middle);
    assert LeastIn(b, multiset(middle));
    assert multiset(now) == pool - multiset{a} - multiset{b} + multiset{Merge(a, b)};
    forall t | HuffmanRun(multiset(now), t)
      ensures HuffmanRun(inputs, t)
    {
      RunStep(pool, a, b, t);
    }
  }

  /** `createFromHeap`: while more than one node is left, takes the least
      node `a` and then the least remaining node `b`, and puts back the
      internal node with `a` on the left and `b` on the right; the last node
      is the root. The tree has exactly the leaves of the nodes that were in
      the heap, and its root frequency is the total of theirs. */
  method CreateFromHeap(heap: MinHeap) returns (r: Result<Tree, Error>)
    modifies heap
    ensures heap.items == []
    ensures r.Ok? <==> old(heap.items) != []
    ensures r.Err? ==> r.error == EmptyHeap
    ensures r.Ok? ==> multiset(Leaves(r.value.root)) == LeafBag(old(heap.items))
    ensures r.Ok? ==> r.value.root.frequency == SumFrequencies(old(heap.items))
    ensures r.Ok? ==> BuiltFrom(r.value.root, old(multiset(heap.items)))
    ensures r.Ok? && AllWellFormed(old(heap.items)) ==> WellFormed(r.value.root)
    ensures r.Ok? ==> HuffmanRun(old(multiset(heap.items)), r.value.root)
  {
    ghost var inputs := heap.items;
    var size := heap.GetSize();
    while size > 1
      invariant size == |heap.items|
      invariant size == 0 <==> inputs == []
      invariant LeafBag(heap.items) == LeafBag(inputs)
      invariant SumFrequencies(heap.items) == SumFrequencies(inputs)
      invariant forall x :: x in heap.items ==> BuiltFrom(x, multiset(inputs))
      invariant AllWellFormed(inputs) ==> AllWellFormed(heap.items)
      invariant forall t :: HuffmanRun(multiset(heap.items), t) ==> HuffmanRun(multiset(inputs), t)
      decreases size
    {
      ghost var before := heap.items;
      var a := heap.ExtractMin();
      ghost var middle := heap.items;
      var b := heap.ExtractMin();
      ghost var after := heap.items;
      heap.Insert(Merge(a.value, b.value));
      MergeStep(before, middle, after, heap.items, a.value, b.value, multiset(inputs));
      MergeStepRun(before, middle, after, heap.items, a.value, b.value, multiset(inputs));
      size := heap.GetSize();
    }
    ghost var last := heap.items;
    var root := heap.ExtractMin();
    if root.None? {
      return Err(EmptyHeap);
    }
    BagRemove(last, heap.items, root.value);
    assert root.value in last;
    assert multiset(last) == multiset{root.value};
    return Ok(Tree(root.value));
  }

  // ---------------------------------------------------------------------
  // The build as `main` runs it, without the input and output

  lemma {:induction false} LeafBagOfLeaves(s: seq<Node>)
    requires forall i :: 0 <= i < |s| ==> s[i].Leaf?
    ensures LeafBag(s) == multiset(s)
    decreases |s|
  {
    if |s| > 0 {
      LeafBagOfLeaves(s[1..]);
      assert s == [s[0]] + s[1..];
    }
  }

  /** `freqToHeap` followed by `createFromHeap` on the text of a frequency
      table: it succeeds exactly when the table parses, and never ends in
      the heap's exception. The tree is one the greedy loop builds from the
      table's leaves (each merge joins the two least nodes left), it has
      exactly those leaves, and its root frequency is their total. */
  method BuildTree(legend: string, parse: string -> Option<nat>) returns (r: Result<Tree, Error>)
    ensures var table := ParseTable(JavaText.Tokenize(legend), parse);
      && (r.Ok? <==> table.Ok?)
      && (table.Err? ==> r == Err(table.error))
      && r != Err(EmptyHeap)
      && (r.Ok? ==>
            && HuffmanRun(multiset(table.value), r.value.root)
            && multiset(Leaves(r.value.root)) == multiset(table.value)
            && r.value.root.frequency == SumFrequencies(table.value)
            && WellFormed(r.value.root)
            && BuiltFrom(r.value.root, multiset(table.value)))
  {
    TableNeverEmpty(legend, parse);
    var heap :- FreqToHeap(legend, parse);
    ghost var table := ParseTable(JavaText.Tokenize(legend), parse).value;
    ghost var items := heap.items;
    ParseTableMeaning(JavaText.Tokenize(legend), parse);
    BagPermutation(items, table);
    LeafBagOfLeaves(table);
    assert AllWellFormed(items) by {
      forall x | x in items
        ensures WellFormed(x)
      {
        assert x in multiset(table);
      }
    }
    r := CreateFromHeap(heap);
  }
}
