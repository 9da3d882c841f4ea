/** The two ways src/HuffmanTree.java writes a tree out: the legend (one line
    per leaf: escaped symbol, a tab, its code) and the tree spec (a postorder
    walk). The printing is replaced by the lines and the text it would have
    printed. */
module TreeOutput {
  import opened Wrappers
  import opened HuffmanNode
  import opened HuffmanTree
  import JavaText

  // ---------------------------------------------------------------------
  // convertSymbolToChar

  /** The four symbol tokens that are written differently from how they are
      spelled. */
  predicate IsReserved(symbol: string) {
    symbol == "space" || symbol == "eom" || symbol == "|" || symbol == "\\"
  }

  /** `convertSymbolToChar`: `space` is written as a blank, `eom` as `\e`, a
      bar as `\|` and a backslash as `\\`; every other symbol as it is. */
  function ConvertSymbolToChar(symbol: string): (r: string)
    ensures r == symbol <==> !IsReserved(symbol)
    ensures IsReserved(symbol) ==> r == " " || (|r| == 2 && r[0] == '\\')
  {
    if symbol == "space" then " "
    else if symbol == "eom" then "\\e"
    else if symbol == "|" then "\\|"
    else if symbol == "\\" then "\\\\"
    else symbol
  }

  /** A symbol the escaping keeps apart from every other: a reserved token,
      or one with no blank, bar or backslash in it. */
  predicate Unambiguous(symbol: string) {
    IsReserved(symbol) || forall i :: 0 <= i < |symbol| ==> symbol[i] !in {' ', '|', '\\'}
  }

  /** Two different unambiguous symbols are never written the same way. */
  lemma ConvertSymbolToCharInjective(s: string, t: string)
    requires Unambiguous(s) && Unambiguous(t)
    requires ConvertSymbolToChar(s) == ConvertSymbolToChar(t)
    ensures s == t
  {
  }

  /** The number of times `c` occurs in `s`. */
  function Occurrences(c: char, s: string): nat {
    if |s| == 0 then 0 else (if s[0] == c then 1 else 0) + Occurrences(c, s[1..])
  }

  lemma {:induction false} OccurrencesAppend(c: char, a: string, b: string)
    ensures Occurrences(c, a + b) == Occurrences(c, a) + Occurrences(c, b)
    decreases |a|
  {
    if |a| == 0 {
      assert a + b == b;
    } else {
      assert (a + b)[1..] == a[1..] + b;
      OccurrencesAppend(c, a[1..], b);
    }
  }

  /** Escaping neither adds nor removes bars: `|` becomes `\|`. */
  lemma ConvertSymbolToCharKeepsBars(symbol: string)
    ensures Occurrences('|', ConvertSymbolToChar(symbol)) == Occurrences('|', symbol)
  {
    if IsReserved(symbol) {
      assert Occurrences('|', "\\|"[1..]) == 1;
      assert Occurrences('|', "\\\\"[1..]) == 0;
      assert Occurrences('|', "\\e"[1..]) == 0;
      assert Occurrences('|', "space"[1..]) == 0 by {
        assert Occurrences('|', "space"[4..]) == 0;
        assert Occurrences('|', "space"[3..]) == 0;
        assert Occurrences('|', "space"[2..]) == 0;
      }
      assert Occurrences('|', "eom"[1..]) == 0 by {
        assert Occurrences('|', "eom"[2..]) == 0;
      }
    }
  }

  // ---------------------------------------------------------------------
  // printLegend / traverseLegend

  /** One line of the legend before it is formatted: the leaf's symbol and the
      bits on the way to it. */
  datatype LegendLine = LegendLine(symbol: string, code: string)

  /** `traverseLegend(node, bits)`: the lines it prints, in order. */
  function TraverseLegend(node: Node, bits: string): seq<LegendLine> {
    match node
    case Leaf(symbol, _) => [LegendLine(symbol, bits)]
    case Internal(_, _, left, right) => TraverseLegend(left, bits + "0") + TraverseLegend(right, bits + "1")
  }

  function FormatLegendLine(line: LegendLine): string {
    ConvertSymbolToChar(line.symbol) + "\t" + line.code
  }

  /** `printLegend`: the lines it prints. */
  function PrintLegend(tree: Tree): seq<string> {
    var lines := TraverseLegend(tree.root, "");
    seq(|lines|, i requires 0 <= i < |lines| => FormatLegendLine(lines[i]))
  }

  /** The node reached from `node` by following `path`, `0` to the left and
      `1` to the right; `None` if the path leaves the tree. */
  function Follow(node: Node, path: string): Option<Node>
    decreases |path|
  {
    if |path| == 0 then Some(node)
    else
      match node
      case Leaf(_, _) => None
      case Internal(_, _, left, right) =>
        if path[0] == '0' then Follow(left, path[1..])
        else if path[0] == '1' then Follow(right, path[1..])
        else None
  }

  /** A code that goes on from `bits` with one turn leads from `node` where
      the rest of it leads from the child that turn selects. */
  lemma FollowTurn(node: Node, bits: string, turn: char, code: string)
    requires node.Internal? && (turn == '0' || turn == '1')
    requires |bits| + 1 <= |code| && code[..|bits| + 1] == bits + [turn]
    ensures code[..|bits|] == bits
    ensures Follow(node, code[|bits|..]) ==
      Follow(if turn == '0' then node.left else node.right, code[|bits| + 1..])
  {
    assert code[..|bits|] == code[..|bits| + 1][..|bits|];
    assert code[|bits|] == code[..|bits| + 1][|bits|];
    assert code[|bits|..][1..] == code[|bits| + 1..];
  }

  /** The codes of `lines` are in strictly increasing lexicographic order. */
  ghost predicate CodesOrdered(lines: seq<LegendLine>) {
    forall i, j :: 0 <= i < j < |lines| ==> JavaText.LexLess(lines[i].code, lines[j].code)
  }

  /** A code that turns left after `bits` comes before one that turns right
      there. */
  lemma TurnsOrdered(left: string, right: string, bits: string)
    requires |bits| + 1 <= |left| && left[..|bits| + 1] == bits + "0"
    requires |bits| + 1 <= |right| && right[..|bits| + 1] == bits + "1"
    ensures JavaText.LexLess(left, right)
  {
    var k := |bits|;
    assert left[..k] == left[..k + 1][..k] == bits;
    assert right[..k] == right[..k + 1][..k] == bits;
    assert left[k] == left[..k + 1][k] == '0';
    assert right[k] == right[..k + 1][k] == '1';
  }

  /** The lines of a left subtree, all turning left after `bits`, followed
      by those of a right subtree, all turning right, keep their codes in
      order. */
  lemma OrderedConcat(ls: seq<LegendLine>, rs: seq<LegendLine>, bits: string)
    requires CodesOrdered(ls) && CodesOrdered(rs)
    requires forall i :: 0 <= i < |ls| ==>
      |bits| + 1 <= |ls[i].code| && ls[i].code[..|bits| + 1] == bits + "0"
    requires forall j :: 0 <= j < |rs| ==>
      |bits| + 1 <= |rs[j].code| && rs[j].code[..|bits| + 1] == bits + "1"
    ensures CodesOrdered(ls + rs)
  {
    var lines := ls + rs;
    forall i, j | 0 <= i < j < |lines|
      ensures JavaText.LexLess(lines[i].code, lines[j].code)
    {
      if j < |ls| {
        assert lines[i] == ls[i] && lines[j] == ls[j];
      } else if i >= |ls| {
        assert lines[i] == rs[i - |ls|] && lines[j] == rs[j - |ls|];
      } else {
        assert lines[i] == ls[i] && lines[j] == rs[j - |ls|];
        TurnsOrdered(ls[i].code, rs[j - |ls|].code, bits);
      }
    }
  }

  /** The legend has one line per leaf, in left-to-right order, and the code
      on line i, after the bits already accumulated, is the path from the
      node to leaf i. The codes come in increasing lexicographic order, so
      even where two leaves are equal, line i holds the path to leaf i and
      not to its twin. */
  lemma {:induction false} LegendCodesArePaths(node: Node, bits: string)
    ensures |TraverseLegend(node, bits)| == |Leaves(node)|
    ensures forall i :: 0 <= i < |Leaves(node)| ==>
      var line := TraverseLegend(node, bits)[i];
      && line.symbol == Leaves(node)[i].symbols
      && |bits| <= |line.code| && line.code[..|bits|] == bits
      && Follow(node, line.code[|bits|..]) == Some(Leaves(node)[i])
    ensures CodesOrdered(TraverseLegend(node, bits))
  {
    match node
    case Leaf(_, _) =>
      assert TraverseLegend(node, bits)[0].code[|bits|..] == [];
    case Internal(_, _, left, right) =>
      var bl, br := bits + "0", bits + "1";
      LegendCodesArePaths(left, bl);
      LegendCodesArePaths(right, br);
      var ls, rs := TraverseLegend(left, bl), TraverseLegend(right, br);
      var lines := TraverseLegend(node, bits);
      assert lines == ls + rs;
      forall i | 0 <= i < |Leaves(node)|
        ensures lines[i].symbol == Leaves(node)[i].symbols
        ensures |bits| <= |lines[i].code| && lines[i].code[..|bits|] == bits
        ensures Follow(node, lines[i].code[|bits|..]) == Some(Leaves(node)[i])
      {
        if i < |ls| {
          assert lines[i] == ls[i] && Leaves(node)[i] == Leaves(left)[i];
          FollowTurn(node, bits, '0', ls[i].code);
        } else {
          var j := i - |ls|;
          assert lines[i] == rs[j] && Leaves(node)[i] == Leaves(right)[j];
          FollowTurn(node, bits, '1', rs[j].code);
        }
      }
      OrderedConcat(ls, rs, bits);
  }

  /** Codes that turn different ways after `bits` are not prefixes of each
      other. */
  lemma DifferentTurns(left: string, right: string, bits: string)
    requires |bits| + 1 <= |left| && left[..|bits| + 1] == bits + "0"
    requires |bits| + 1 <= |right| && right[..|bits| + 1] == bits + "1"
    ensures !(left <= right) && !(right <= left)
  {
    assert left[|bits|] == left[..|bits| + 1][|bits|] == '0';
    assert right[|bits|] == right[..|bits| + 1][|bits|] == '1';
  }

  /** No code in the legend is a prefix of another. */
  lemma {:induction false} LegendPrefixFree(node: Node, bits: string)
    ensures var lines := TraverseLegend(node, bits);
      forall i, j :: 0 <= i < |lines| && 0 <= j < |lines| && i != j ==> !(lines[i].code <= lines[j].code)
  {
    match node
    case Leaf(_, _) =>
    case Internal(_, _, left, right) =>
      var bl, br := bits + "0", bits + "1";
      LegendPrefixFree(left, bl);
      LegendPrefixFree(right, br);
      LegendCodesArePaths(left, bl);
      LegendCodesArePaths(right, br);
      var ls, rs := TraverseLegend(left, bl), TraverseLegend(right, br);
      var lines := TraverseLegend(node, bits);
      assert lines == ls + rs;
      forall i, j | 0 <= i < |lines| && 0 <= j < |lines| && i != j
        ensures !(lines[i].code <= lines[j].code)
      {
        if i < |ls| && j >= |ls| {
          assert lines[i] == ls[i] && lines[j] == rs[j - |ls|];
          DifferentTurns(ls[i].code, rs[j - |ls|].code, bits);
        } else if i >= |ls| && j < |ls| {
          assert lines[i] == rs[i - |ls|] && lines[j] == ls[j];
          DifferentTurns(ls[j].code, rs[i - |ls|].code, bits);
        } else if i >= |ls| {
          assert lines[i] == rs[i - |ls|] && lines[j] == rs[j - |ls|];
        } else {
          assert lines[i] == ls[i] && lines[j] == ls[j];
        }
      }
  }

  /** `printLegend` prints one line per leaf, left to right: the escaped
      symbol, a tab and the leaf's path from the root; no code is a prefix of
      another, the codes increase lexicographically, and a tree that is a single leaf gets the empty code. */
  lemma PrintLegendMeaning(tree: Tree)
    ensures var lines := TraverseLegend(tree.root, "");
      && |PrintLegend(tree)| == |lines| == |Leaves(tree.root)|
      && (forall i :: 0 <= i < |lines| ==>
            && PrintLegend(tree)[i] == ConvertSymbolToChar(Leaves(tree.root)[i].symbols) + "\t" + lines[i].code
            && Follow(tree.root, lines[i].code) == Some(Leaves(tree.root)[i]))
      && (forall i, j :: 0 <= i < |lines| && 0 <= j < |lines| && i != j ==> !(lines[i].code <= lines[j].code))
      && (forall i, j :: 0 <= i < j < |lines| ==> JavaText.LexLess(lines[i].code, lines[j].code))
      && (tree.root.Leaf? ==> PrintLegend(tree) == [ConvertSymbolToChar(tree.root.symbols) + "\t"])
  {
    var lines := TraverseLegend(tree.root, "");
    LegendCodesArePaths(tree.root, "");
    LegendPrefixFree(tree.root, "");
    forall i | 0 <= i < |lines|
      ensures lines[i].code[0..] == lines[i].code
    {
    }
    if tree.root.Leaf? {
      assert ConvertSymbolToChar(tree.root.symbols) + "\t" + "" == ConvertSymbolToChar(tree.root.symbols) + "\t";
    }
  }

  // ---------------------------------------------------------------------
  // printTreeSpec / traverseSpec

  /** `traverseSpec(node, isRightmost)`: the text it prints. */
  function TraverseSpec(node: Node, isRightmost: bool): string {
    match node
    case Leaf(symbol, _) => ConvertSymbolToChar(symbol)
    case Internal(_, _, left, right) =>
      TraverseSpec(left, false) + TraverseSpec(right, isRightmost) + (if isRightmost then "" else "|")
  }

  /** `printTreeSpec`: the spec, then a line break. */
  function PrintTreeSpec(tree: Tree): string {
    TraverseSpec(tree.root, true) + "\n"
  }

  function InternalCount(node: Node): nat {
    match node
    case Leaf(_, _) => 0
    case Internal(_, _, left, right) => 1 + InternalCount(left) + InternalCount(right)
  }

  /** The internal nodes on the rightmost spine: the root and the chain of
      right children below it. */
  function SpineLength(node: Node): nat {
    match node
    case Leaf(_, _) => 0
    case Internal(_, _, _, right) => 1 + SpineLength(right)
  }

  /** The bars spelled inside the symbols of `leaves`. */
  function BarsInSymbols(leaves: seq<Node>): nat {
    if |leaves| == 0 then 0 else Occurrences('|', leaves[0].symbols) + BarsInSymbols(leaves[1..])
  }

  /** A strictly binary tree has one internal node fewer than leaves, and its
      spine is made of internal nodes. */
  lemma {:induction false} CountsOfTree(node: Node)
    ensures InternalCount(node) == |Leaves(node)| - 1
    ensures SpineLength(node) <= InternalCount(node)
  {
    match node
    case Leaf(_, _) =>
    case Internal(_, _, left, right) =>
      CountsOfTree(left);
      CountsOfTree(right);
      LeavesAreLeaves(left);
  }

  lemma {:induction false} BarsInSymbolsAppend(a: seq<Node>, b: seq<Node>)
    ensures BarsInSymbols(a + b) == BarsInSymbols(a) + BarsInSymbols(b)
    decreases |a|
  {
    if |a| == 0 {
      assert a + b == b;
    } else {
      assert (a + b)[1..] == a[1..] + b;
      BarsInSymbolsAppend(a[1..], b);
    }
  }

  /** Every internal node writes one delimiter bar, except those on the
      rightmost spine when the walk starts on it; all other bars in the text
      are the ones spelled in the symbols. */
  lemma {:induction false} TraverseSpecBars(node: Node, isRightmost: bool)
    ensures Occurrences('|', TraverseSpec(node, isRightmost)) ==
      InternalCount(node) - (if isRightmost then SpineLength(node) else 0) + BarsInSymbols(Leaves(node))
  {
    CountsOfTree(node);
    match node
    case Leaf(symbol, _) =>
      ConvertSymbolToCharKeepsBars(symbol);
      assert BarsInSymbols([node]) == Occurrences('|', symbol);
    case Internal(_, _, left, right) =>
      TraverseSpecBars(left, false);
      TraverseSpecBars(right, isRightmost);
      var l, r := TraverseSpec(left, false), TraverseSpec(right, isRightmost);
      var tail := if isRightmost then "" else "|";
      OccurrencesAppend('|', l, r);
      OccurrencesAppend('|', l + r, tail);
      assert Occurrences('|', "|"[1..]) == 0;
      BarsInSymbolsAppend(Leaves(left), Leaves(right));
  }

  /** The escaped symbols of `leaves`, in order. */
  function EscapedSymbols(leaves: seq<Node>): (r: seq<string>)
    ensures |r| == |leaves|
  {
    if |leaves| == 0 then [] else [ConvertSymbolToChar(leaves[0].symbols)] + EscapedSymbols(leaves[1..])
  }

  function Bars(n: nat): string {
    if n == 0 then "" else "|" + Bars(n - 1)
  }

  /** The text made of each symbol followed by its own run of bars. */
  function Layout(symbols: seq<string>, bars: seq<nat>): string
    requires |symbols| == |bars|
  {
    if |symbols| == 0 then "" else symbols[0] + Bars(bars[0]) + Layout(symbols[1..], bars[1..])
  }

  /** How many bars `traverseSpec` writes right after each leaf: the closing
      bars of the internal nodes off the spine whose last leaf it is. */
  function BarCounts(node: Node, isRightmost: bool): (bars: seq<nat>)
    ensures |bars| == |Leaves(node)| > 0
  {
    match node
    case Leaf(_, _) => [0]
    case Internal(_, _, left, right) =>
      var r := BarCounts(right, isRightmost);
      BarCounts(left, false) + r[..|r| - 1] + [r[|r| - 1] + (if isRightmost then 0 else 1)]
  }

  lemma {:induction false} LayoutAppend(s1: seq<string>, b1: seq<nat>, s2: seq<string>, b2: seq<nat>)
    requires |s1| == |b1| && |s2| == |b2|
    ensures Layout(s1 + s2, b1 + b2) == Layout(s1, b1) + Layout(s2, b2)
    decreases |s1|
  {
    if |s1| == 0 {
      assert s1 + s2 == s2 && b1 + b2 == b2;
    } else {
      assert (s1 + s2)[1..] == s1[1..] + s2 && (b1 + b2)[1..] == b1[1..] + b2;
      LayoutAppend(s1[1..], b1[1..], s2, b2);
    }
  }

  lemma {:induction false} BarsSucc(n: nat)
    ensures Bars(n + 1) == Bars(n) + "|"
  {
    if n > 0 {
      BarsSucc(n - 1);
    }
  }

  /** One more bar after the last symbol is one more bar at the end. */
  lemma {:induction false} LayoutBumpLast(symbols: seq<string>, bars: seq<nat>)
    requires |symbols| == |bars| > 0
    ensures var n := |bars| - 1;
      Layout(symbols, bars[..n] + [bars[n] + 1]) == Layout(symbols, bars) + "|"
    decreases |bars|
  {
    var n := |bars| - 1;
    var bumped := bars[..n] + [bars[n] + 1];
    if n == 0 {
      BarsSucc(bars[0]);
      assert Layout(symbols[1..], bumped[1..]) == "" == Layout(symbols[1..], bars[1..]);
      assert bumped[0] == bars[0] + 1;
    } else {
      LayoutBumpLast(symbols[1..], bars[1..]);
      assert bumped[1..] == bars[1..][..n - 1] + [bars[1..][n - 1] + 1];
      assert bumped[0] == bars[0];
    }
  }

  lemma {:induction false} EscapedSymbolsAppend(a: seq<Node>, b: seq<Node>)
    ensures EscapedSymbols(a + b) == EscapedSymbols(a) + EscapedSymbols(b)
    decreases |a|
  {
    if |a| == 0 {
      assert a + b == b;
    } else {
      assert (a + b)[1..] == a[1..] + b;
      EscapedSymbolsAppend(a[1..], b);
    }
  }

  /** One level of `BarCounts` below an internal node. */
  lemma BarCountsInternal(node: Node, isRightmost: bool)
    requires node.Internal?
    ensures var br := BarCounts(node.right, isRightmost);
      var n := |br| - 1;
      BarCounts(node, isRightmost) == BarCounts(node.left, false) + (br[..n] + [br[n] + (if !isRightmost then 1 else 0)])
  {
  }

  /** A walk that starts on the rightmost spine writes no bar after the
      last symbol. */
  lemma {:induction false} BarCountsLast(node: Node)
    ensures var bars := BarCounts(node, true); bars[|bars| - 1] == 0
  {
    match node
    case Leaf(_, _) =>
    case Internal(_, _, left, right) =>
      BarCountsLast(right);
      BarCountsInternal(node, true);
  }

  /** Two layouts side by side, with the last run of bars of the second
      optionally one bar longer, are that layout of the joined sequences. */
  lemma LayoutJoin(sl: seq<string>, bl: seq<nat>, sr: seq<string>, br: seq<nat>, bump: bool)
    requires |sl| == |bl| && |sr| == |br| > 0
    ensures var n := |br| - 1;
      Layout(sl + sr, bl + (br[..n] + [br[n] + (if bump then 1 else 0)])) ==
      Layout(sl, bl) + Layout(sr, br) + (if bump then "|" else "")
  {
    var n := |br| - 1;
    var br' := br[..n] + [br[n] + (if bump then 1 else 0)];
    LayoutAppend(sl, bl, sr, br');
    if bump {
      LayoutBumpLast(sr, br);
    } else {
      assert br' == br;
    }
  }

  /** The layout of an internal node is its children's layouts followed by
      the node's own closing bar, if any. */
  lemma LayoutInternal(node: Node, isRightmost: bool)
    requires node.Internal?
    ensures Layout(EscapedSymbols(Leaves(node)), BarCounts(node, isRightmost)) ==
      Layout(EscapedSymbols(Leaves(node.left)), BarCounts(node.left, false)) +
      Layout(EscapedSymbols(Leaves(node.right)), BarCounts(node.right, isRightmost)) +
      (if isRightmost then "" else "|")
  {
    EscapedSymbolsAppend(Leaves(node.left), Leaves(node.right));
    BarCountsInternal(node, isRightmost);
    LayoutJoin(EscapedSymbols(Leaves(node.left)), BarCounts(node.left, false),
      EscapedSymbols(Leaves(node.right)), BarCounts(node.right, isRightmost), !isRightmost);
  }

  /** The spec lists the escaped leaf symbols in left-to-right order with
      nothing but runs of bars between and after them. */
  lemma {:induction false} TraverseSpecLayout(node: Node, isRightmost: bool)
    ensures TraverseSpec(node, isRightmost) == Layout(EscapedSymbols(Leaves(node)), BarCounts(node, isRightmost))
  {
    match node
    case Leaf(symbol, _) =>
      assert EscapedSymbols([node]) == [ConvertSymbolToChar(symbol)];
      assert Layout([ConvertSymbolToChar(symbol)], [0]) == ConvertSymbolToChar(symbol) + "" + "";
    case Internal(_, _, left, right) =>
      TraverseSpecLayout(left, false);
      TraverseSpecLayout(right, isRightmost);
      LayoutInternal(node, isRightmost);
  }

  /** `printTreeSpec`: the escaped symbols left to right, each followed by
      its run of delimiter bars, the last by none, and a line break at the
      end; the text holds one bar per internal node off the rightmost spine
      besides the bars spelled in the symbols. */
  lemma PrintTreeSpecMeaning(tree: Tree)
    ensures var leaves, bars := Leaves(tree.root), BarCounts(tree.root, true);
      && |bars| == |leaves|
      && PrintTreeSpec(tree) == Layout(EscapedSymbols(leaves), bars) + "\n"
      && bars[|bars| - 1] == 0
      && Occurrences('|', PrintTreeSpec(tree)) == |leaves| - 1 - SpineLength(tree.root) + BarsInSymbols(leaves)
  {
    TraverseSpecLayout(tree.root, true);
    BarCountsLast(tree.root);
    TraverseSpecBars(tree.root, true);
    CountsOfTree(tree.root);
    OccurrencesAppend('|', TraverseSpec(tree.root, true), "\n");
  }
}
