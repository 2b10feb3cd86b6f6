# CYK parsing of a context-free grammar in Chomsky normal form

This project models the core of `CFGCompiler.java` in Dafny:

- the CYK recogniser `cykParse`, which builds parse trees as it goes;
- the node type `ParseTreeNode` and its tree printer;
- the per-line rule parsing of `readGrammar`.

`cykParse` fills a triangular table `dp[i][j]` of node lists in three steps:

1. The diagonal gets one node per rule `A -> a`.
2. Longer spans follow, by increasing length. Every node of `dp[i][k]` is combined with every node of `dp[k+1][j]` under every rule `A -> BC`.
3. The first node of `dp[0][n-1]` named `S` is returned, or `null` when there is none.

`readGrammar` splits each line at `->` and splits the right-hand side at `|`. It trims every piece and appends the alternatives to the list of the left-hand side. A left-hand side that appears on several lines therefore accumulates its alternatives.

Files, one module each:

- `parse_tree.dfy` (`ParseTree`): the tree datatype, its yield, and the printer as a function returning the printed lines.
- `grammar.dfy` (`Grammars`): the grammar as a sequence of rules `(lhs, alternatives)`, and the `putIfAbsent`/`add` step (`Accumulate`).
- `cyk_spec.dfy` (`CykSpec`): functions that give every table cell in the order the loops fill it. Their lemmas prove that a cell holds exactly the derivation trees of its substring (`CellExact`). They also cover:
  - multiplicities on the diagonal;
  - the round trip from a tree's leaves back to the input;
  - the fact that alternatives of length other than 1 and 2 play no part.
- `cyk.dfy` (`Cyk`): the imperative parser. It uses a two-dimensional array filled by the source's nested loops. Each loop is proved equal to its function in `CykSpec`.
- `text.dfy` (`Text`): Java's `String.trim` and `String.split` on a literal separator, with their properties.
- `grammar_reader.dfy` (`GrammarReader`): the `readGrammar` loop over the lines of the file, and what the resulting map holds.
- `scenario.dfy` (`Scenario`): a small grammar that accepts `ab` and rejects `ba`.
- `seqs.dfy` (`Seqs`), `wrappers.dfy` (`Wrappers`): generic sequence facts, `Option` and `Result`.

## Model

| member | source | states |
|---|---|---|
| ParseTree.Yield | CFGCompiler.java:7-22 | every tree reads at least one character, a binary node at least two |
| ParseTree.Render | CFGCompiler.java:25-41 | printing a tree prints one line per node object; the first line is the indent, the branch glyph chosen by `isLast`, and the node's symbol |
| ParseTree.RenderIndented | CFGCompiler.java:25-41 | every printed line of a subtree starts with the indent it was printed under, because children only extend the indent |
| Grammars.LookupUpToIff | CFGCompiler.java:85-86 | an alternative is listed by the first `n` rules for `a` iff one of those rules has key `a` and lists it |
| Grammars.ProducesIff | CFGCompiler.java:85-86 | `a -> alt` is in the grammar iff some rule with key `a` lists `alt` |
| Grammars.KeyIndex | CFGCompiler.java:54 | the position found holds the key and is the first such position; no position is returned when the key is absent |
| Grammars.AccumulateKeys | CFGCompiler.java:54 | `putIfAbsent` followed by `add` keeps the keys unique and adds exactly the key `a` |
| Grammars.AccumulateLookup | CFGCompiler.java:54-57 | the new alternatives are appended to those of `a`, and every other key keeps its list |
| Text.TrimStartSpec | CFGCompiler.java:52-53 | removing leading blanks keeps a suffix, drops only characters up to U+0020, and stops at a non-blank |
| Text.TrimEndSpec | CFGCompiler.java:52-53 | removing trailing blanks keeps a prefix, drops only blanks, and stops at a non-blank |
| Text.TrimEnds | CFGCompiler.java:52-53 | a trimmed string neither starts nor ends with a blank |
| Text.TrimSlice | CFGCompiler.java:52-53 | `trim` keeps one contiguous stretch of the string, with only blanks before and after it |
| Text.TrimIdempotent | CFGCompiler.java:53 | trimming an already trimmed piece changes nothing |
| Text.FindFromSpec | CFGCompiler.java:51 | the separator search returns a real occurrence and the first one; when it returns none, there is none |
| Text.JoinPieces | CFGCompiler.java:51 | joining the split pieces with the separator gives back the line |
| Text.PiecesFree | CFGCompiler.java:51 | no piece contains the separator |
| Text.DropTrailingEmptySpec | CFGCompiler.java:51 | dropping trailing empty strings keeps a prefix, drops only empty strings, and leaves a non-empty last piece |
| Text.PiecesHead | CFGCompiler.java:51 | the first piece is the text before the first occurrence of the separator, or the whole string when there is none |
| Text.SecondPiece | CFGCompiler.java:51-53 | the second piece is the text between the first occurrence of the separator and the next one, or the end of the string |
| Text.SplitFree | CFGCompiler.java:51 | no part returned by `split` contains the separator |
| GrammarReader.FirstFailure | CFGCompiler.java:50-53 | the index found is a failing line with every earlier line parsed; no index means every line parsed |
| GrammarReader.ReadGrammar | CFGCompiler.java:45-64 | the loop over the lines returns exactly `Load`: the first failing line, or the grammar folded from all lines |
| GrammarReader.LineFails | CFGCompiler.java:51-53 | a line whose split at `->` has fewer than two parts, after only good lines, is the failure the whole file reports |
| GrammarReader.AddAlternatives | CFGCompiler.java:54-57 | `putIfAbsent` then one `add` per trimmed alternative gives the grammar with those alternatives accumulated under `left` |
| GrammarReader.AccumulateOne | CFGCompiler.java:56 | accumulating one more alternative is one more `add` on the list of the key |
| GrammarReader.NoArrowFails | CFGCompiler.java:51-53 | a line without `->` has no `parts[1]` and fails |
| GrammarReader.ParsedLeft | CFGCompiler.java:51-52 | the left-hand side is the trimmed text before the first `->` |
| GrammarReader.ParsedRight | CFGCompiler.java:51-56 | the stored alternatives are the bar-separated pieces, each trimmed and in order, of the trimmed text between the first `->` and the next `->` or the end of the line |
| GrammarReader.ParsedAlternatives | CFGCompiler.java:53-56 | every stored alternative is trimmed and contains no bar character |
| GrammarReader.FoldKeys | CFGCompiler.java:50-54 | the map built from the lines has one entry per distinct left-hand side and no other |
| GrammarReader.FoldLookup | CFGCompiler.java:50-57 | the entry of each left-hand side holds the alternatives of all its lines, in line order: repeats accumulate instead of replacing |
| GrammarReader.LoadSpec | CFGCompiler.java:45-64 | reading a file gives either the first line whose split at `->` has fewer than two parts, or a map with unique keys holding every line's alternatives in order |
| CykSpec.InDiagUpTo | CFGCompiler.java:82-93 | a diagonal node from the first `n` rules is `(A, c)` with `c` listed for `A` by those rules, and nothing else |
| CykSpec.InDiag | CFGCompiler.java:82-93 | `dp[i][i]` holds exactly the nodes `(A, input[i])` for which `A -> input[i]` is a rule |
| CykSpec.DiagAltsCount | CFGCompiler.java:86-90 | one rule contributes the node `(A, c)` once per occurrence of the alternative `c` in its list |
| CykSpec.DiagCountUpTo | CFGCompiler.java:85-90 | the count of `(A, c)` in the diagonal equals the count of `c` among `A`'s alternatives |
| CykSpec.DiagCount | CFGCompiler.java:82-93 | multiplicities on the diagonal are kept: duplicate alternatives give duplicate nodes |
| CykSpec.InMatches | CFGCompiler.java:111-116 | the nodes from one left node pair it with a right node whose symbols are `B` and `C` |
| CykSpec.InCombos | CFGCompiler.java:110-117 | rule `A -> BC` yields exactly the nodes `(A, l, r)` with `l` named `B` from the left cell and `r` named `C` from the right cell |
| CykSpec.PairIff | CFGCompiler.java:104-113 | two one-character symbols form an alternative iff it has length 2 and has them as its characters |
| CykSpec.InAltCombos | CFGCompiler.java:103-119 | a key's alternatives yield exactly the nodes whose child symbols, concatenated, are a length-2 alternative of that key |
| CykSpec.InRuleCombos | CFGCompiler.java:102-120 | one split point yields exactly the nodes whose children come from `dp[i][k]` and `dp[k+1][j]` by a binary rule |
| CykSpec.SplitsSound | CFGCompiler.java:101-121 | every node of a longer span comes from some split point `i <= k < j` |
| CykSpec.SplitsComplete | CFGCompiler.java:101-121 | every split point's nodes are in the span's cell: none is pruned |
| CykSpec.BinYield | CFGCompiler.java:114 | a node over split `k` reads the whole span when its children read the two halves |
| CykSpec.BinSplit | CFGCompiler.java:101 | a binary tree reading a span splits it at some `i <= k < j` into what its children read |
| CykSpec.CellSound | CFGCompiler.java:79-123 | every node in `dp[i][j]` is a derivation tree of the grammar whose leaves read `input[i..j]` |
| CykSpec.CellComplete | CFGCompiler.java:79-123 | every derivation tree of `input[i..j]` is in `dp[i][j]`, so ambiguity is kept |
| CykSpec.CellExact | CFGCompiler.java:79-123 | a node is in `dp[i][j]` iff it is a derivation tree whose leaves read `input[i..j]` |
| CykSpec.CellYield | CFGCompiler.java:82-117 | round trip: every node of `dp[i][j]` reads back `input[i..j]`; a diagonal node is a unit node, a longer span's a binary one |
| CykSpec.DerivationKey | CFGCompiler.java:85-86 | every node of a derivation is named by a key of the grammar |
| CykSpec.WholeInput | CFGCompiler.java:126 | `dp[0][n-1]` holds exactly the derivation trees of the whole input |
| CykSpec.TopCell | CFGCompiler.java:125-131 | the input is derivable from a symbol iff some node of `dp[0][n-1]` carries it |
| CykSpec.CellCnf | CFGCompiler.java:87-113 | deleting every empty alternative and every alternative longer than 2 changes no cell, neither its contents nor its order |
| Cyk.DiagonalCell | CFGCompiler.java:82-93 | the diagonal loop over keys and alternatives computes `Diag`, whose contents `InDiag` and `DiagCount` state |
| Cyk.MatchPairs | CFGCompiler.java:110-117 | the loop over left and right nodes computes `Combos`, the matching pairs `InCombos` describes |
| Cyk.CombineRule | CFGCompiler.java:103-119 | the loop over one key's alternatives computes `AltCombos` |
| Cyk.CombineSplit | CFGCompiler.java:102-120 | the loop over the keys computes what one split point contributes, as `InRuleCombos` describes |
| Cyk.BuildTable | CFGCompiler.java:79-123 | after the fill, each cell `dp[i][j]` with `i <= j` equals `Cell`, so `CellExact` applies. Fill order: when `dp[i][j]` is computed, every shorter span is final |
| Cyk.FirstNamed | CFGCompiler.java:126-130 | the search returns the first position whose node carries the symbol, or no position when none does |
| Cyk.CykParse | CFGCompiler.java:77-132 | the result exists iff the input is derivable from `S`; it is then a derivation tree rooted at `S` that reads back the input, and the first such node of `dp[0][n-1]`; no result means no node there is named `S` |
| Scenario.Accepted | CFGCompiler.java:125-131 | with `S -> AB`, `A -> a`, `B -> b`, the string `ab` is derivable, so `CykParse` returns a tree |
| Scenario.Rejected | CFGCompiler.java:125-131 | with the same grammar, `ba` is not derivable, so `CykParse` returns no tree |

## Left out

- File reading in `readGrammar` (lines 46-50 and 59-63) is not modelled: `BufferedReader`, `FileReader`, the `IOException` handler and `printStackTrace`. The lines of the file are a parameter of `ReadGrammar`.
- A line whose split at `->` has fewer than two parts throws an `ArrayIndexOutOfBoundsException` at line 52 or 53. This covers a line without an arrow, which has one part, and a line made only of arrows, such as `->`, which splits into no parts. That exception is not an `IOException`, so it leaves `readGrammar`. The model returns `Failure` with the index of that line instead of a grammar.
- `displayGrammar` and `main` (lines 67-74 and 134-166) are console input and output and are not modelled.
- The `HashMap` is modelled as a sequence of rules, and keys are visited in insertion order. Java's `keySet()` order is unspecified. When several trees exist, the model does not predict which one the Java program prints.
- `printTree` is modelled as `Render`, which returns the printed lines. Writing them to the console is not modelled.
- `Cyk.CykParse`: requires a non-empty input. On the empty string `dp` has length 0, so `dp[0]` at line 126 throws.
- `Cyk.CykParse`, `GrammarReader.ReadGrammar` and the `Text` functions treat a string as a sequence of Unicode scalar values. Java's `length()` and `charAt` (lines 78, 84 and 104) count UTF-16 code units. A character outside the Basic Multilingual Plane is one character in the model and two in Java. The model agrees with the source only when the input and the grammar contain no such character.
- `Cyk.BuildTable`: the Java cells with `i > j` stay `null`. In the model they hold values the model leaves unspecified, and no lemma or method reads them. Each cell is built in a local sequence and then stored. The source appends to `dp[i][j]` in place, but no read inside the loop touches that cell, so the contents match.
- `Text.Split`: `String.split` takes a regular expression. `->` and `\|` both match literally, so the model splits on the literal separators. Regex features are not modelled.
- Only the text between the first and second `->` becomes the right-hand side, as `parts[1]` does in the source (`GrammarReader.ParsedRight`).
- A line such as `A -> |` adds the key `A` with no alternatives, because `split` drops trailing empty strings. The model does the same and states no separate lemma for it.
