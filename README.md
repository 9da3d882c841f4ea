# Huffman tree builder — a verified Dafny model

This project models `src/HuffmanTree.java`. That file reads a frequency table, builds a
Huffman tree and writes the tree out in one of two forms.

- **Frequency table.** The table is whitespace-separated text of alternating symbol and
  frequency tokens. `freqToHeap` makes one leaf `HuffmanNode` per pair and puts all the
  leaves into a min-heap.
- **Node order.** The heap orders nodes by `HuffmanNode.compareTo`: lower frequency
  first, and on a tie the lexicographically smaller symbol string first.
- **Building.** `createFromHeap` takes the two least nodes out of the heap and merges them
  into an internal node. The first node taken out becomes the left child. The internal
  node carries the concatenated symbols and the summed frequency. It goes back into the
  heap, and this repeats until one node is left.
- **Legend.** `printLegend` writes one line per leaf: the escaped symbol, a tab, and the
  path to the leaf (`0` for left, `1` for right).
- **Tree spec.** `printTreeSpec` writes a postorder walk. Leaves are written as their
  escaped symbols. Each internal node closes with `|`, except the nodes on the rightmost
  spine.
- **Escaping.** `convertSymbolToChar` writes `space` as a blank, `eom` as `\e`, `|` as
  `\|` and `\` as `\\`.

Modules:

- `Wrappers`: `Option` and `Result`.
- `JavaText`: the two pieces of Java string behaviour the builder relies on.
  - `String.compareTo`, proved against an independent lexicographic order.
  - `trim().split("\\s+")`, with a round-trip lemma for tokens joined by whitespace runs
    and surrounded by padding.
- `HuffmanNode`: the node, the merge constructor and `compareTo`.
- `BinaryHeap`: the heap's contract, as `createFromHeap` uses it. It is a `MinHeap` class
  whose methods update its element sequence.
- `HuffmanTree`: `freqToHeap`, `createFromHeap` and the two of them in sequence, as
  `main` calls them. `freqToHeap` is a method with the source's array loop.
  `createFromHeap` is a method with the source's merge loop.
- `TreeOutput`: the escaping, the legend and the tree spec. Each is a function that
  returns the text the source prints.

Behaviour of the code the model keeps as written:

- **No reserved-character check.** The code raises no error for a symbol that contains a
  blank, `|` or `\`. The model writes such a symbol out unchanged, as the code does.
  `ConvertSymbolToCharInjective` states when the escaping stays unambiguous.
- **Malformed tables.** The code has no "malformed table" error.
  - The loop stops at the first frequency token that does not parse, with
    `NumberFormatException`.
  - When every frequency token before it parses, an odd number of tokens fails with
    `ArrayIndexOutOfBoundsException` at index `tokens.length`. This includes a blank
    table, which `split` turns into one empty token, so it fails at index 1.
  - Both are `HuffmanTree.Error` values.
- **Empty heap.** The source of `BinaryHeap` is not part of this model. The model assumes
  a contract for it: `extractMin` on an empty heap fails, with the `EmptyHeap` error.
  Under that contract `createFromHeap` ends in `EmptyHeap` only when it is given a heap
  that is already empty. Reading a
  table never gets there: `split` never yields zero tokens, one token is an odd count,
  and two or more tokens make at least one leaf. So the build from a table text never
  ends in `EmptyHeap` (`TableNeverEmpty`).

## Model

| member | source | states |
|---|---|---|
| JavaText.CompareStrings | src/HuffmanTree.java:28 | `String.compareTo`: the difference of the first pair of characters that differ, or else the difference of the lengths. Its meaning is stated by `CompareStringsMeaning` and `CompareStringsTransitive`. |
| JavaText.CompareStringsMeaning | src/HuffmanTree.java:28 | `String.compareTo` is zero exactly on equal strings. It is negative exactly when the first string is lexicographically smaller (a proper prefix, or a smaller character at the first difference). Swapping the arguments negates it. |
| JavaText.CompareStringsTransitive | src/HuffmanTree.java:28 | The order `String.compareTo` induces is transitive. |
| JavaText.Tokenize | src/HuffmanTree.java:46 | `legend.trim().split("\\s+")`: the maximal runs of non-`\s` characters of the trimmed text, or a single empty token for a blank text. Its meaning is stated by `TokensAreWords`, `TokenizeNonEmpty` and `TokenizeJoin`. |
| JavaText.TokensAreWords | src/HuffmanTree.java:46 | `trim().split("\\s+")` yields `[""]` exactly when the input is blank. No token contains whitespace, and on a non-blank input no token is empty. |
| JavaText.TokenizeNonEmpty | src/HuffmanTree.java:46 | `trim().split("\\s+")` never yields zero tokens. |
| JavaText.TokenizeJoin | src/HuffmanTree.java:46 | A non-empty list of tokens that hold no `\s`, joined by any non-empty runs of `\s` and surrounded by any leading and trailing characters that `trim` removes, splits back into exactly that list. The only other condition is that the table's own first and last characters are above U+0020, so that `trim` leaves them. |
| HuffmanNode.Merge | src/HuffmanTree.java:18-23 | The internal-node constructor: the left and right children, their symbols concatenated and their frequencies summed. Its meaning is stated by `MergeConserves`. |
| HuffmanNode.CompareFrequencies | src/HuffmanTree.java:27 | `Double.compareTo` on two frequencies: -1, 0 or 1. Its use in the node order is stated by `CompareTo`. |
| HuffmanNode.LeavesAreLeaves | src/HuffmanTree.java:12-23 | Every node has at least one leaf, and everything listed as a leaf is a leaf node. |
| HuffmanNode.WellFormedMeaning | src/HuffmanTree.java:18-23 | In a tree built by the two constructors, a node's `symbols` is its leaves' symbols concatenated left to right. Its `frequency` is their total. |
| HuffmanNode.MergeConserves | src/HuffmanTree.java:18-23 | The internal-node constructor keeps well-formedness. Its leaves are the left child's followed by the right child's, and its symbols and frequency are theirs combined. |
| HuffmanNode.CompareTo | src/HuffmanTree.java:26-29 | `compareTo` is negative exactly when the node has a lower frequency, or an equal frequency and a lexicographically smaller symbol string. It is zero exactly when both frequency and symbols agree. |
| HuffmanNode.CompareToAntisymmetric | src/HuffmanTree.java:26-29 | Swapping the operands of `compareTo` negates the result. |
| HuffmanNode.CompareToTransitive | src/HuffmanTree.java:26-29 | `compareTo` is transitive, so a least node exists in every non-empty heap. |
| BinaryHeap.MinIndex | src/HuffmanTree.java:64-65 | Finds a node that is `compareTo`-least among all the heap's nodes. |
| BinaryHeap.MinHeap.constructor | src/HuffmanTree.java:55 | The heap built from the array holds exactly the array's nodes. |
| BinaryHeap.MinHeap.GetSize | src/HuffmanTree.java:63 | `getSize` is the number of nodes held. |
| BinaryHeap.MinHeap.Insert | src/HuffmanTree.java:66 | `insert` adds exactly the given node. |
| BinaryHeap.MinHeap.ExtractMin | src/HuffmanTree.java:64-65 | `extractMin` fails on an empty heap. Otherwise it removes exactly one node and returns it, and that node is `compareTo`-least among the nodes held before. |
| HuffmanTree.LeavesFrom | src/HuffmanTree.java:50-54 | The loop of `freqToHeap` from token `i` on: a leaf per symbol/frequency pair, or the exception the loop stops at. Its meaning is stated by `LeavesFromMeaning` and `LeavesFromErrors`. |
| HuffmanTree.ParseTable | src/HuffmanTree.java:48-54 | The whole loop of `freqToHeap`, from token 0. Its meaning is stated by `ParseTableMeaning` and `TableNeverEmpty`. |
| HuffmanTree.LeavesFromMeaning | src/HuffmanTree.java:50-54 | From pair `m` on, the loop succeeds exactly when the token count is even and every remaining frequency token parses. It then makes one leaf per pair, from tokens `2k` and `2k+1`. Otherwise it fails at the first unparsable frequency token, or at index `tokens.length`. |
| HuffmanTree.ParseTableMeaning | src/HuffmanTree.java:46-54 | The same over the whole token list: a leaf per symbol/frequency pair in table order, or the exception the loop stops at. |
| HuffmanTree.LeavesFromErrors | src/HuffmanTree.java:50-54 | The loop of `freqToHeap` only stops at one of its two exceptions, never at the heap's. |
| HuffmanTree.TableNeverEmpty | src/HuffmanTree.java:46-55 | A table read from any text never gives an empty array of leaves, and never fails with the heap's exception. |
| HuffmanTree.FreqToHeap | src/HuffmanTree.java:45-56 | `freqToHeap` succeeds exactly when the tokenized table parses. It returns a new heap holding exactly the table's leaves, or else the table's error. |
| HuffmanTree.BagPermutation | src/HuffmanTree.java:62-69 | The leaves below a collection of nodes and their total frequency depend only on which nodes the heap holds, not on their order. |
| HuffmanTree.MergeStep | src/HuffmanTree.java:64-66 | One merge step keeps the leaves below the heap's nodes and their total frequency. It keeps every node built from the inputs by merges whose left child is the `compareTo`-least node. It keeps well-formedness. |
| HuffmanTree.RunStep | src/HuffmanTree.java:63-66 | If a tree can be reached after merging the least node with the least remaining node, it can be reached from the pool before that merge. |
| HuffmanTree.RunFirstStep | src/HuffmanTree.java:63-66 | When the least node and the least remaining node are unique, every tree the loop can reach starts by merging those two. |
| HuffmanTree.MergeStepRun | src/HuffmanTree.java:63-66 | After one turn of the loop (`extractMin`, `extractMin`, `insert` of the merge), every tree reachable from the heap's nodes is still one the loop can reach from its inputs. |
| HuffmanTree.HuffmanRunExample | src/HuffmanTree.java:62-69 | For leaves A/1, B/2 and C/3 the loop builds `Merge(Merge(A, B), C)` and nothing else. In particular it never builds `Merge(A, Merge(B, C))`. |
| HuffmanTree.CreateFromHeap | src/HuffmanTree.java:62-69 | `createFromHeap` empties the heap. It fails exactly when the heap was empty. Otherwise the root's leaves are exactly the leaves below the heap's nodes, and its frequency is their total. Every internal node merges two nodes with the one extracted first on the left. When every node in the heap was well formed, so is the result. The tree is one the greedy loop can reach: each merge joins the `compareTo`-least node left with the least node remaining after it, in that order. |
| HuffmanTree.BuildTree | src/HuffmanTree.java:118-120 | Reading a table and building its tree succeeds exactly when the table parses. Parse errors propagate unchanged, and the build never ends in the heap's failure. The tree is one the greedy loop can reach from the table's leaves. Its leaves are exactly the table's leaves, its frequency is the table's total, and it is well formed. |
| TreeOutput.ConvertSymbolToChar | src/HuffmanTree.java:108-114 | A symbol is written unchanged exactly when it is not one of the four reserved tokens. A reserved token is written as a blank or as a backslash followed by one character. |
| TreeOutput.ConvertSymbolToCharInjective | src/HuffmanTree.java:108-114 | Two different symbols that are reserved or free of blanks, bars and backslashes are never written the same. |
| TreeOutput.ConvertSymbolToCharKeepsBars | src/HuffmanTree.java:108-114 | Escaping neither adds nor removes `|` characters. |
| TreeOutput.TraverseLegend | src/HuffmanTree.java:78-85 | The lines `traverseLegend` prints, in order: a leaf's symbol with the bits so far, or the lines of the left child with `0` added to the bits followed by those of the right child with `1`. Its meaning is stated by `LegendCodesArePaths` and `LegendPrefixFree`. |
| TreeOutput.PrintLegend | src/HuffmanTree.java:75-80 | The lines `printLegend` prints: each legend line as the escaped symbol, a tab and the code. Its meaning is stated by `PrintLegendMeaning`. |
| TreeOutput.LegendCodesArePaths | src/HuffmanTree.java:78-85 | `traverseLegend` writes one line per leaf, left to right. Each code extends the bits passed in by the path from the node to that leaf. The codes increase lexicographically, so line i holds the path to leaf i even when two leaves are equal. |
| TreeOutput.LegendPrefixFree | src/HuffmanTree.java:78-85 | No code written by `traverseLegend` is a prefix of another. |
| TreeOutput.PrintLegendMeaning | src/HuffmanTree.java:75-85 | `printLegend` writes one line per leaf, left to right: the escaped symbol, a tab, and the leaf's path from the root. The codes are prefix-free and increase lexicographically, and a single-leaf tree gets the empty code. |
| TreeOutput.TraverseSpec | src/HuffmanTree.java:96-106 | The text `traverseSpec` prints: a leaf's escaped symbol, or the left child's text, the right child's text and a `|` unless the node is on the rightmost spine. Its meaning is stated by `TraverseSpecLayout` and `TraverseSpecBars`. |
| TreeOutput.PrintTreeSpec | src/HuffmanTree.java:92-95 | The text `printTreeSpec` prints: the walk from the root on the rightmost spine, then a line break. Its meaning is stated by `PrintTreeSpecMeaning`. |
| TreeOutput.CountsOfTree | src/HuffmanTree.java:96-106 | A tree has one internal node fewer than leaves, and its rightmost spine has no more nodes than the tree has internal nodes. |
| TreeOutput.TraverseSpecBars | src/HuffmanTree.java:96-106 | The text of `traverseSpec` holds one delimiter bar per internal node (minus the rightmost spine when the walk starts there) plus the bars spelled in the symbols. |
| TreeOutput.TraverseSpecLayout | src/HuffmanTree.java:96-106 | `traverseSpec` writes the escaped leaf symbols left to right, each followed only by its run of closing bars. |
| TreeOutput.PrintTreeSpecMeaning | src/HuffmanTree.java:92-106 | `printTreeSpec` writes that layout followed by a line break, with no bar after the last symbol. Its bar count is leaves − 1 − spine length plus the bars spelled in the symbols. |

## Left out

- `main` (src/HuffmanTree.java:116-126): reading standard input (`StdinToString`, which is not part of this model), choosing the mode from the arguments and printing. `BuildTree` models lines 118-120. The printing methods are modelled by the text they would print.
- `HuffmanNode.toString`: used only for debugging output.
- `Double.valueOf` is a parameter `parse` that returns a frequency or fails. Frequencies are non-negative whole numbers. Fractional, negative, infinite and NaN frequencies are not modelled, and neither is floating-point rounding of the summed frequencies.
- `CompareStrings` compares Dafny characters (Unicode scalar values) where Java compares UTF-16 code units. The two orders differ only for characters outside the Basic Multilingual Plane.
- `BinaryHeap`'s source is not part of this model. `MinHeap` keeps its nodes in a sequence with no heap layout and states every contract on the multiset of nodes. In-place heapify and sift operations are not modelled. When nodes tie under `compareTo` (equal frequency and equal symbols), which of them `extractMin` returns is left open.
- `HuffmanConverter.java`: the encode, decode and analyze front end is not part of this model.
