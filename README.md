# catgram core, modelled in Dafny

catgram is a Python toolkit for categorial grammar (CCG and the Lambek
calculus). This project models its core and proves properties of the model:

- **Category trees** (`catgram/category_tree.py`). A category is an atom, or
  a forward (`/`) or backward (`\`) slash over a result and an argument.
  Modelled here:
  - validation at construction, and the metrics (`arity`, `len`, `size`,
    `degree`, `order`, `target`);
  - `get_arg` and the functorial sequence `func_seq`;
  - the printer `to_str` in its four notations (fully parenthesised or
    left-associative, Steedman or Lambek order), with and without polarised
    leaf indices;
  - the tokenizer and the recursive-descent parser `from_str` / `_parse_str`,
    with every error it raises and its lenient mode;
  - the process-wide intern table `INSTANCES` that the parser fills.
- **Lexical decomposition and term graphs** (`catgram/term_graph.py`):
  - `decompose_category`, which turns a polarised category into proof-frame
    nodes and edges;
  - `TermGraph`, which lays out the decompositions of a sentence, labels
    the nodes and reads lambda terms off the graph.
- **Dependency scoring** (`catgram/ccg/dependencies.py`):
  - the Levenshtein alignment `_lev_matches`, with its forward table and
    its backward stack pass;
  - `dep_label_correct`, for full and subcategorial labelling with
    alignment;
  - `score_sentence`.
- **Head finding** (`catgram/ccg/heads.py`):
  - `WordToken` and `HeadDependency` and their string forms;
  - the CCGbank `.auto` head walker `_head_autofile`;
  - the Lewis–Steedman walker `_head_ls14`;
  - `parse_head`.
- **C&C ignore list** (`catgram/ccg/candc_ignore.py`): the two tables of
  ignored dependencies and `ignore_dep`.

The files:

| file | module | what it holds |
|---|---|---|
| `wrappers.dfy` | `Wrappers` | `Option` and `Result` |
| `text.dfy` | `Text` | Python's `str(int)`, `int(str)`, `str.split(c)`, `str.split()` and `"".join` |
| `category_tree.dfy` | `CategoryTree` | the tree, `__post_init__`, the metrics, `target`, `get_arg` |
| `category_tokens.dfy` | `CategoryTokens` | `atom_delim.split` as a token sequence |
| `category_printer.dfy` | `CategoryPrinter` | `_inorder`, `to_str`, polarised indices, `func_seq`, injectivity of the printer |
| `category_parser.dfy` | `CategoryParser` | `_parse_str` and `from_str` as functions threading the intern table |
| `category_parser_as_written.dfy` | `CategoryParserAsWritten` | the parser with the left-associative chain step as written, and how it relates to the modelled parser |
| `category_roundtrip.dfy` | `CategoryRoundTrip` | `from_str(to_str(c)) == c` in every supported notation, from any table consistent with the notation |
| `category_consistency.dfy` | `CategoryConsistency` | two tables that parses leave, with entries under keys that are not renderings, and their consistency |
| `category_variants.dfy` | `CategoryVariants` | the error paths and lenient behaviour of the parser on concrete input shapes |
| `category_interner.dfy` | `CategoryInterner` | the class `Interner` (the `INSTANCES` dict) and the parser as a loop that updates it |
| `lexical_decomposition.dfy` | `LexicalDecomposition` | `decompose_category` and the proof-frame invariants |
| `term_graph.dfy` | `TermGraphs` | the class `TermGraph`, its constructor's loops, `get_term` |
| `dependencies.dfy` | `Dependencies` | `_lev_matches`, `dep_label_correct`, `score_sentence` |
| `heads_tokens.dfy` | `HeadTokens` | `WordToken`, `HeadDependency`, their `__str__` and `from_str` |
| `heads.dfy` | `Heads`, `HeadsProofs`, `HeadsLayout` | the head walkers, `parse_head`, leaf numbering, the `autox` layout |
| `candc_ignore.dfy` | `CandcIgnore` | the ignore tables and `ignore_dep` |

**The intern table.** The parser writes to the intern table at several
points while it reads a category. It also re-reads the table as a sanity
check.

- In the functional parser the table is an explicit value. It is threaded
  through every step, so each insertion the source makes is visible in the
  outcome, including insertions on a run that later raises.
- A failed re-read is its own error outcome:
  - a missing key raises `KeyError`;
  - at an atom, a parenthesised group or the end of a level, a cached tree
    that differs from the one just built fails an `assert`.
- The left-associative chain step (`category_tree.py:157-167`) is the one
  place where the model departs from the code.
  - As written, the code rebinds `left` to the cached tree before its
    sanity check. The check then compares that tree with a tree that
    contains it, so it always fails.
  - The modelled parser (`CategoryParser`) checks the cached tree against
    the tree it would build, which is evidently the intent.
  - `CategoryParserAsWritten` keeps the step as written. It proves that
    the code, whenever it returns, returns what the model returns, and
    exhibits an input on which it raises. See "## Findings".
- A key the parser interns need not be the rendering of its tree. From an
  empty table, a strict `from_str("(A)/B")` caches `A/B` under `(A)/B`, and
  a left-associative `from_str("A/B/C")` caches `(A/B)/C` under `A/B/C`.
  What reading a rendering back needs is weaker: a table is *consistent*
  with a notation when every tree whose rendering is cached is cached under
  that rendering as itself. The round trip holds for every tree exactly
  when the table is consistent, and both tables above are.
- The class `Interner` runs the modelled parser as a `while` loop over the
  token index. The loop updates `root`, `left` and `right` in place, and
  each of its methods is proved equal to the functional parser.

**Two facts about the code:**

- `decompose_category` creates one edge per slash, which is `len(c) - 1`
  edges in all (`term_graph.py:89-124`).
- `TermGraph`'s `sentential` defaults to `0` (`term_graph.py:141`).

## Model

| member | source | states |
|---|---|---|
| CategoryTree.New | catgram/category_tree.py:26-50 | construction succeeds exactly for a childless node whose root passes `atom_re`, or a node with both children whose root is `/` or `\`; the node keeps the given fields and is atomic exactly when `result` is absent |
| CategoryTree.NewOfFields | catgram/category_tree.py:26-50 | rebuilding a well-formed tree from its own `root`, `result` and `argument` passes validation and gives the tree back |
| CategoryTree.Arity | catgram/category_tree.py:258-264 | the arity is zero exactly for atoms |
| CategoryTree.Len | catgram/category_tree.py:266-281 | a category has at least one leaf, a complex one at least two |
| CategoryTree.Size | catgram/category_tree.py:297-302 | the node count is twice the leaf count minus one |
| CategoryTree.Degree | catgram/category_tree.py:283-288 | the degree lies between 1 and the leaf count and exceeds the arity |
| CategoryTree.Order | catgram/category_tree.py:290-295 | the order is zero exactly for atoms and is below the degree |
| CategoryTree.ResultPow | catgram/category_tree.py:258-264 | `k` steps along `result` lower the arity by `k` |
| CategoryTree.TargetCat | catgram/category_tree.py:245-256 | following `result` reaches an atom after exactly `arity` steps, and that atom is well formed when the category is |
| CategoryTree.Target | catgram/category_tree.py:245-256 | `target` is `None` exactly for atoms, otherwise the text of the atom reached along the results |
| CategoryTree.GetArg | catgram/category_tree.py:424-432 | `get_arg(slot)` succeeds exactly for `0 <= slot <= arity`; a larger slot raises the invalid-slot error; slot 0 is the target and slot `k` the argument of the subcategory of arity `k` |
| CategoryTree.GetArgAtArity | catgram/category_tree.py:429-430 | `get_arg(arity)` is the outermost argument, or the atom itself |
| CategoryTokens.Tokenize | catgram/category_tree.py:83 | the split starts with the delimiter token when the text starts with a delimiter, otherwise with an atom token |
| CategoryTokens.TokenizeJoin | catgram/category_tree.py:83 | splitting the joined text of a token sequence whose atoms are never adjacent gives the sequence back |
| CategoryPrinter.Inorder | catgram/category_tree.py:385-408 | one polarised index per leaf; a single token exactly for atoms, the atom's own text |
| CategoryPrinter.InorderAtomCount | catgram/category_tree.py:362-364 | the number of leaf tokens equals `len(c)`, the sanity assertion of `to_str` |
| CategoryPrinter.InorderIndicesPermutation | catgram/category_tree.py:385-408 | the polarised indices of `_inorder` are a permutation of `0 .. len-1` |
| CategoryPrinter.InorderToks | catgram/category_tree.py:385-408 | the printed tokens do not depend on the polarity |
| CategoryPrinter.Print | catgram/category_tree.py:385-408 | a rendering is one token exactly for an atom, at least three tokens otherwise |
| CategoryPrinter.PrintSeparated | catgram/category_tree.py:385-408 | every atom token of a rendering is a valid atom and no two atoms are adjacent, so the text can be split back |
| CategoryPrinter.ToStrInjective | catgram/category_tree.py:333-358 | two well-formed categories with the same rendering, in any notation but left-associative Lambek, are equal |
| CategoryPrinter.LeafPositions | catgram/category_tree.py:361 | `leaf_idxs` lists the positions of the atom tokens, in increasing order, one per atom |
| CategoryPrinter.LeafPositionsAtRank | catgram/category_tree.py:361 | every atom token's position is listed, at its rank among the atoms |
| CategoryPrinter.AnnotateLeaves | catgram/category_tree.py:366-370 | the loop over `zip(leaf_idxs, pol_idx)` gives the `k`-th leaf the `k`-th polarised index and leaves the other tokens alone |
| CategoryPrinter.ToStrPolarised | catgram/category_tree.py:333-371 | `to_str(pol_start=...)` returns the annotated rendering and `pol_start + len(c)` |
| CategoryPrinter.PolarisedIndicesCover | catgram/category_tree.py:359-371 | the printed indices cover `pol_start .. pol_start+len-1`, each once |
| CategoryPrinter.FuncSeq | catgram/category_tree.py:409-423 | `func_seq` has `arity + 1` elements and starts with the target atom |
| CategoryPrinter.FuncSeqAt | catgram/category_tree.py:409-423 | element `k >= 1` of `func_seq` is the slash of the arity-`k` subcategory followed by `get_arg(k)`, parenthesised when complex |
| CategoryParser.Intern | catgram/category_tree.py:142-147 | interning fails exactly when the key holds a different tree (the sanity assertion); otherwise the tree is stored and no entry changes |
| CategoryParser.Build | catgram/category_tree.py:160-167 | the built node is complex with the slash read; in Lambek order a backslash takes its operands the other way round |
| CategoryParser.Level | catgram/category_tree.py:87-233 | one parenthesis level stops at or after where it started, and the table only grows |
| CategoryParser.Loop | catgram/category_tree.py:98-198 | the token loop stops at or after the level's start, and the table only grows |
| CategoryParser.Place | catgram/category_tree.py:170-197 | placing an operand stops at or after the level's start, and the table only grows |
| CategoryParser.Finish | catgram/category_tree.py:199-233 | the code after the loop returns the index the loop stopped at, and the table only grows |
| CategoryParser.FromStr | catgram/category_tree.py:53-84 | a cached `(string, lambek)` key returns the cached tree and leaves the table alone; in every case the table only grows |
| CategoryParserAsWritten.ChainCheckNeverHolds | catgram/category_tree.py:157-163 | the check made after `left = INSTANCES[key]` compares a tree with a tree built on it, and can never hold |
| CategoryParserAsWritten.LevelAsWritten | catgram/category_tree.py:87-233 | `_parse_str` as written stops at or after where it started, and the table only grows |
| CategoryParserAsWritten.LoopAsWritten | catgram/category_tree.py:98-198 | the loop as written, which raises at every cached chain prefix; it stops at or after the level's start, and the table only grows |
| CategoryParserAsWritten.FromStrAsWritten | catgram/category_tree.py:53-84 | `from_str` as written: a cached key returns its tree; the table only grows |
| CategoryParserAsWritten.LevelAgrees | catgram/category_tree.py:87-233 | the level as written, whenever it returns and always in fully parenthesised notation, returns the modelled level's tree and table |
| CategoryParserAsWritten.FromStrAgrees | catgram/category_tree.py:53-84 | `from_str` as written, whenever it returns and always in fully parenthesised notation, gives the modelled result and table |
| CategoryParserAsWritten.FromStrToStrAsWritten | catgram/category_tree.py:53-233 | from a consistent table, the code as written reads every rendering back in fully parenthesised notation; in left-associative notation it either raises or reads the rendering back |
| CategoryParserAsWritten.CachedPrefixAborts | catgram/category_tree.py:157-163 | after `from_str("A/B")`, the code as written raises on `from_str("A/B/C", left_associative=True)`, where the model reads `(A/B)/C` |
| CategoryConsistency.FullRejectsABC | catgram/category_tree.py:113-122 | in full parenthesisation, `from_str("A/B/C")` raises "extraneous stuff after right node" |
| CategoryConsistency.ChainTable | catgram/category_tree.py:53-233 | from an empty table, a left-associative `from_str("A/B/C")` reads `(A/B)/C` and caches `A`, `B`, `A/B`, `C`, and `(A/B)/C` under `A/B/C`; the code as written does exactly the same, no chain prefix being cached |
| CategoryConsistency.FullConsistent | catgram/category_tree.py:220-231 | that table is consistent with full parenthesisation, though its entry under `A/B/C` renders as `(A/B)/C` there |
| CategoryConsistency.LassocConsistent | catgram/category_tree.py:220-231 | that table is consistent with left-associative notation |
| CategoryConsistency.ChainTableConsistent | catgram/category_tree.py:53-84 | the entry that parse leaves under `A/B/C` is not that key's tree in full parenthesisation, yet every rendering still reads back from the table, fully parenthesised or left-associative |
| CategoryConsistency.ParenStrict | catgram/category_tree.py:53-233 | a strict `from_str("(A)/B")` from an empty table reads `A/B` and caches `A`, `B`, and `A/B` under `(A)/B` |
| CategoryConsistency.ParenTableConsistent | catgram/category_tree.py:53-84 | the entry under `(A)/B` does not render as its key, yet every fully parenthesised rendering still reads back from that table |
| CategoryRoundTrip.EmptyConsistent | catgram/category_tree.py:439 | the initially empty table is consistent with every notation |
| CategoryRoundTrip.InternConsistent | catgram/category_tree.py:142-147 | in a consistent table, interning a well-formed tree under its own rendering passes the sanity check, and the table stays consistent |
| CategoryRoundTrip.InternHarmless | catgram/category_tree.py:220-231 | any tree may be cached under a key whose fresh parse, in this notation, fails or gives that tree; a consistent table stays consistent |
| CategoryRoundTrip.LevelRoundTrip | catgram/category_tree.py:87-233 | from a table consistent with the notation, one level reads a rendering back to its tree, stops at its end, leaves the tree cached under its rendering and the table consistent |
| CategoryRoundTrip.FromStrToStr | catgram/category_tree.py:53-84 | from a table consistent with the notation, `from_str(to_str(c))` gives `c` back, strict or lenient, in every notation but left-associative Lambek, and the table stays consistent |
| CategoryRoundTrip.RoundTripIffConsistent | catgram/category_tree.py:53-84 | every well-formed tree reads back from its rendering if and only if the table is consistent with the notation |
| CategoryRoundTrip.FromStrStr | catgram/category_tree.py:304-310 | `from_str(str(c)) == c` with the default flags from an empty table |
| CategoryVariants.FromStrEmpty | catgram/category_tree.py:205-206 | the empty string raises "Empty category" |
| CategoryVariants.FromStrLeadingSlash | catgram/category_tree.py:133-137 | a leading slash raises "missing left node" |
| CategoryVariants.FromStrLeadingClose | catgram/category_tree.py:103-112 | a leading `)` raises "extraneous closing parenthesis" when strict; lenient, the level ends empty and raises "Empty category" |
| CategoryVariants.FromStrTrailingSlash | catgram/category_tree.py:215-218 | an atom followed by a slash raises "missing right node", with the atom left interned |
| CategoryVariants.FromStrConsecutiveSlashes | catgram/category_tree.py:148-153 | two slashes in a row after an atom raise "two consecutive slashes", with the atom left interned |
| CategoryVariants.FromStrFullThen | catgram/category_tree.py:113-122 | from a consistent table, in fully parenthesised notation, anything but `)` after a complex rendering raises "extraneous stuff after right node", strict or lenient |
| CategoryVariants.FromStrStrayClose | catgram/category_tree.py:103-112 | from a consistent table, a stray `)` after a rendering raises when strict; lenient, it is ignored and the category is read |
| CategoryVariants.FromStrUnclosed | catgram/category_tree.py:199-203 | from a consistent table, an unclosed `(` before a rendering raises "unclosed parenthetical" when strict |
| CategoryVariants.FromStrRedundantParens | catgram/category_tree.py:207-214 | from a consistent table, a parenthesised rendering reads as the category, the parentheses stripped; in left-associative notation it raises the parenthesised-expression error |
| CategoryInterner.Interner.constructor | catgram/category_tree.py:439 | the table starts empty |
| CategoryInterner.Interner.Insert | catgram/category_tree.py:142-147 | store the tree unless the key is present; a present key must hold the same tree; nothing else changes |
| CategoryInterner.Interner.ParseStr | catgram/category_tree.py:87-233 | the loop returns what the functional level returns and leaves the table the functional level leaves |
| CategoryInterner.Interner.ReadSlash | catgram/category_tree.py:131-169 | a slash token steps the loop state and table as the functional loop does, or fails with its error |
| CategoryInterner.Interner.ReadOperand | catgram/category_tree.py:170-197 | an atom or a parenthesised group steps the loop state and table as the functional loop does, or fails with its error |
| CategoryInterner.Interner.PlaceOperand | catgram/category_tree.py:177-197 | an operand becomes `root` or an interned `right`, as the functional parser says |
| CategoryInterner.Interner.FinishLevel | catgram/category_tree.py:199-233 | the level's tree is built and interned, or the parentheses are stripped, exactly as the functional parser says |
| CategoryInterner.Interner.FromStr | catgram/category_tree.py:53-84 | `from_str` on the object agrees with the functional parser; a cached key returns its tree; a successful parse of a rendering keeps the table consistent |
| LexicalDecomposition.ShiftEdges | catgram/term_graph.py:121 | every edge of the right block is moved by the same offset |
| LexicalDecomposition.Combine | catgram/term_graph.py:89-124 | the combined block has all nodes and all edges plus one; its target is the result's target, with the same atom and polarity and one more child |
| LexicalDecomposition.Decompose | catgram/term_graph.py:63-124 | one node per leaf and `len - 1` edges; the target node carries the target atom and the given polarity and has `arity` children |
| LexicalDecomposition.DecomposeStep | catgram/term_graph.py:85-124 | a complex category combines its result, decomposed with the same polarity, with its argument, decomposed with the opposite one |
| LexicalDecomposition.DecomposeAtom | catgram/term_graph.py:83-84 | an atom is one childless node of the given polarity, with no edges |
| LexicalDecomposition.EdgeCount | catgram/term_graph.py:92-124 | there are exactly as many edges as child offsets over all nodes |
| LexicalDecomposition.CombineFrame | catgram/term_graph.py:89-124 | combining two proof frames whose targets have opposite polarities gives a proof frame |
| LexicalDecomposition.DecomposeFrame | catgram/term_graph.py:63-124 | every decomposition is a proof frame: each edge links opposite polarities and is recorded as a child offset of its source, every child offset is an edge, and no node (least of all the target) is entered twice |
| LexicalDecomposition.LeafNodes | catgram/term_graph.py:63-124 | the polarised index `_inorder` prints beside each leaf is the position of that leaf's node in the decomposition, with the leaf's atom and polarity |
| LexicalDecomposition.DecomposeIntransitiveVerb | catgram/term_graph.py:89-124 | `S\NP` negative decomposes to the subject node followed by `S` with the subject as its one child |
| LexicalDecomposition.DecomposeTransitiveVerb | catgram/term_graph.py:89-124 | `(S\NP)/NP` negative decomposes to subject, `S` with children object then subject, object |
| TermGraphs.PyIndex | catgram/term_graph.py:227 | a Python list index is valid exactly in `-n .. n-1` and picks `i` or `i + n` |
| TermGraphs.Resolve | catgram/term_graph.py:169-172 | a successful conversion has one entry per input |
| TermGraphs.ResolveGiven | catgram/term_graph.py:169-172 | trees and `None` pass the conversion unchanged |
| TermGraphs.ResolveStuck | catgram/term_graph.py:169-172 | once a string fails to parse, later inputs are not looked at |
| TermGraphs.NormaliseSentential | catgram/term_graph.py:173-174 | with no categories a sentential index fails; otherwise the result is below the count and is the position Python indexing picks |
| TermGraphs.ModInRange | catgram/term_graph.py:174 | an index in `-n .. n-1` reduced modulo `n` is the position Python indexing picks |
| TermGraphs.Sanitise | catgram/term_graph.py:181 | removing `(`, `)`, `.` and `λ` leaves none of them and never lengthens |
| TermGraphs.SanitiseSafe | catgram/term_graph.py:181 | a word without those characters is left unchanged |
| TermGraphs.WordLabel | catgram/term_graph.py:180-183 | a word is labelled `word_i` after sanitising, or keeps `<w_i>` when nothing is left |
| TermGraphs.WordLabels | catgram/term_graph.py:176-183 | word labels fail exactly when the word count differs from the category count; otherwise one per category |
| TermGraphs.DecompFor | catgram/term_graph.py:186-197 | a category has a decomposition exactly when it is present |
| TermGraphs.Decomps | catgram/term_graph.py:185-197 | `decomps[i]` is category `i` decomposed, positive exactly for the sentential category |
| TermGraphs.Clens | catgram/term_graph.py:198-204 | one offset per decomposition |
| TermGraphs.FlattenAt | catgram/term_graph.py:198-204 | block `i` of `nodes`, from `clens[i]` on, is decomposition `i`'s nodes |
| TermGraphs.ClensPlaced | catgram/term_graph.py:198-204 | each block starts where the previous one ends, and all fit in `nodes` |
| TermGraphs.NodeLabels | catgram/term_graph.py:206 | node `p` is labelled with its atom and `_p` |
| TermGraphs.RelabelTarget | catgram/term_graph.py:207-212 | word `i` labels the target node of category `i` |
| TermGraphs.RelabelElsewhere | catgram/term_graph.py:207-212 | a node that is no category's target keeps its `atom_p` label |
| TermGraphs.BuildErrors | catgram/term_graph.py:137-212 | the constructor raises exactly when there are no categories but a sentential index, the word count is wrong, or the sentential category is `None`, in that order |
| TermGraphs.BuildWellBuilt | catgram/term_graph.py:137-212 | a constructed graph holds the given categories, and its decompositions, layout and labels are as the attribute definitions say |
| TermGraphs.GraphBlocks | catgram/term_graph.py:198-204 | the per-word lists have one entry per category, and node `p` of block `i` is decomposition `i`'s node `p - clens[i]` |
| TermGraphs.GraphTargets | catgram/term_graph.py:185-212 | the target node of category `i` carries word `i`'s label and the category's target atom, and is positive exactly for the sentential category |
| TermGraphs.GraphOtherLabels | catgram/term_graph.py:206-212 | every node that is no category's target is labelled `atom_p` |
| TermGraphs.TermAtFuel | catgram/term_graph.py:229-242 | the recursion bound only cuts `_get_term` short: any other outcome is the same with more fuel |
| TermGraphs.AbstractStuck | catgram/term_graph.py:235-236 | a failed abstraction loop stays failed |
| TermGraphs.ApplyStuck | catgram/term_graph.py:239-240 | a failed application loop stays failed |
| TermGraphs.TermGraph.constructor | catgram/term_graph.py:137-212 | the attributes, built list by list, are the graph the constructor defines |
| TermGraphs.TermGraph.Create | catgram/term_graph.py:137-212 | strings are parsed through the intern table first; the constructor then raises or builds as defined |
| TermGraphs.TermGraph.GetTermAt | catgram/term_graph.py:229-242 | the recursive `_get_term` returns the term the term function defines |
| TermGraphs.TermGraph.Abstracted | catgram/term_graph.py:235-236 | the abstraction loop abstracts the children's labels over the term, the last child outermost |
| TermGraphs.TermGraph.Applied | catgram/term_graph.py:239-240 | the application loop applies the term to the children's terms, the first child innermost |
| TermGraphs.TermGraph.GetTerm | catgram/term_graph.py:214-227 | `get_term(idx)` is the term of word `idx`'s target node |
| TermGraphs.LabelWords | catgram/term_graph.py:176-183 | the `words` loop builds the word labels |
| TermGraphs.DecomposeAll | catgram/term_graph.py:185-197 | the `decomps` loop, with the sentential category decomposed positive again, builds the decompositions |
| TermGraphs.LayOut | catgram/term_graph.py:198-204 | the `nodes`/`clens` loop lays the blocks end to end |
| TermGraphs.LabelNodes | catgram/term_graph.py:206-212 | the `labels` loops write `atom_p`, then each word on its target node |
| TermGraphs.SafeLabel | catgram/term_graph.py:180-183 | a safe word is labelled with itself and its index |
| TermGraphs.DotLabel | catgram/term_graph.py:180-183 | `.` sanitises to nothing and keeps the placeholder `<w_3>` |
| TermGraphs.JohnLikesMary | catgram/term_graph.py:214-242 | for "John likes Mary ." with `NP (S\NP)/NP NP S`, sentential `-1` and the linkage of that reading, the sentence's term is `likes_1 Mary_2 John_0` |
| Dependencies.DistStep | catgram/ccg/dependencies.py:62-69 | an inner distance is the cheapest of a deletion, an insertion and a substitution |
| Dependencies.FillTable | catgram/ccg/dependencies.py:58-78 | the forward pass fills exactly the table of distances, back pointers and match flags |
| Dependencies.Relax | catgram/ccg/dependencies.py:64-78 | one cell's entry from its three neighbours |
| Dependencies.BackPointers | catgram/ccg/dependencies.py:70-77 | the back pointers appended in the order deletion, insertion, substitution |
| Dependencies.LevMatches | catgram/ccg/dependencies.py:45-89 | `_lev_matches` returns the 0-based positions of the matching cells reachable backwards from the final cell of the padded table |
| Dependencies.Backtrack | catgram/ccg/dependencies.py:80-89 | the stack pass collects the matches of exactly the cells reachable from the final cell, for any table whose back pointers lead towards the origin |
| Dependencies.TableShape | catgram/ccg/dependencies.py:58-78 | the table has an entry at every cell and nowhere else, and each back pointer leads towards the origin, off the first row and column |
| Dependencies.BackAttainsMinimum | catgram/ccg/dependencies.py:70-77 | the back pointers are exactly the neighbours attaining the distance, at least one inside the table, none on the first two rows and columns |
| Dependencies.DistBounds | catgram/ccg/dependencies.py:62-69 | the distance lies between the difference of the lengths and the longer length |
| Dependencies.DistZero | catgram/ccg/dependencies.py:62-69 | the distance is zero exactly for equal prefixes |
| Dependencies.DistSymmetric | catgram/ccg/dependencies.py:62-69 | exchanging the sequences transposes the distances |
| Dependencies.MatchesAgree | catgram/ccg/dependencies.py:80-89 | every aligned pair names equal items of the padded sequences, within their lengths |
| Dependencies.MatchesSymmetric | catgram/ccg/dependencies.py:45-89 | aligning `hyp` with `tru` gives the transposed pairs of aligning `tru` with `hyp` |
| Dependencies.LabelCorrect | catgram/ccg/dependencies.py:92-137 | full labelling compares labels; subcategorial labelling succeeds exactly when both slots exist, is correct only for equal subcategories, and with equal slots is exactly subcategory equality |
| Dependencies.LabelCorrectSymmetric | catgram/ccg/dependencies.py:100-102 | label correctness does not depend on which label is the true one |
| Dependencies.AlignedSymmetric | catgram/ccg/dependencies.py:134-137 | a slot pair is aligned exactly when the exchanged pair is aligned in the exchanged sequences |
| Dependencies.FullImpliesSubcat | catgram/ccg/dependencies.py:118-129 | a fully correct label whose slot exists is correct subcategorially |
| Dependencies.AlignOnlyAdds | catgram/ccg/dependencies.py:127-137 | alignment only ever turns incorrect labels into correct ones |
| Dependencies.AlignedSlotsAgree | catgram/ccg/dependencies.py:134-137 | slots accepted by alignment alone name equal elements of the two padded functorial sequences |
| Dependencies.Unrooted | catgram/ccg/dependencies.py:184-186 | dropping root dependencies keeps exactly the others, with their labels |
| Dependencies.ScoreSentence | catgram/ccg/dependencies.py:140-237 | the correct count never exceeds either dependency count |
| Dependencies.IgnoreRootDrops | catgram/ccg/dependencies.py:184-186 | with `ignore_root`, scoring is scoring the dependencies not hanging from the root |
| Dependencies.TrivialCountsNothing | catgram/ccg/dependencies.py:196-209 | empty sentences, and sentences with a single root dependency on each side, count nothing under any labelling |
| Dependencies.LabellingCases | catgram/ccg/dependencies.py:210-227 | unlabelled scoring counts the shared edges; an unknown labelling raises for a non-trivial sentence |
| Dependencies.FullLabelling | catgram/ccg/dependencies.py:213-220 | full labelling keeps exactly the shared edges with equal labels |
| Dependencies.SubcatAtLeastFull | catgram/ccg/dependencies.py:210-229 | subcategorial labelling, when it succeeds, finds at least as many correct edges as full labelling |
| Dependencies.AlignAtLeastUnaligned | catgram/ccg/dependencies.py:210-229 | subcategorial alignment finds at least as many correct edges as scoring without it |
| Dependencies.ScoreSymmetric | catgram/ccg/dependencies.py:151-153 | exchanging the true and predicted dependencies exchanges their counts and keeps the correct count |
| HeadTokens.TokenFromStr | catgram/ccg/heads.py:29-32 | a parsed token's word holds no `_` |
| HeadTokens.TokenFieldCount | catgram/ccg/heads.py:31 | a string with other than one `_` fails to unpack into two fields |
| HeadTokens.TokenFromStrShape | catgram/ccg/heads.py:29-32 | a parsed string is the word, one `_` and the text of the integer |
| HeadTokens.TokenRoundTrip | catgram/ccg/heads.py:26-32 | `WordToken.from_str(str(t)) == t` when the word holds no `_` |
| HeadTokens.HeadFromStr | catgram/ccg/heads.py:42-47 | `from_str` gives `None` exactly for the text `None` |
| HeadTokens.StrNoSpace | catgram/ccg/heads.py:40 | a well-formed category is written without spaces, so `str(head)` has exactly one |
| HeadTokens.HeadRoundTrip | catgram/ccg/heads.py:39-47 | `HeadDependency.from_str(str(h)) == h` when the word holds no `_` or space and the category is well formed |
| Text.ParseIntOfIntToString | catgram/ccg/heads.py:27-32 | `int(str(n)) == n` for every integer |
| Text.JoinSplitOn | catgram/ccg/heads.py:31 | joining the fields of `s.split(c)` with `c` gives `s` |
| Text.WordsOfJoin | catgram/ccg/candc_ignore.py:136 | `" ".join(ws).split() == ws` for non-empty fields without whitespace |
| Heads.StripConj | catgram/ccg/heads.py:65 | removing a trailing `[conj]` never lengthens |
| Heads.Unescape | catgram/ccg/heads.py:78 | undoing escaped slashes never lengthens |
| Heads.StripFeatures | catgram/ccg/heads.py:138-140 | removing lower-case features never lengthens |
| Heads.LeafHead | catgram/ccg/heads.py:74-81 | a leaf bumps the counter and its word gets the new number; it fails exactly when the word group is absent |
| Heads.HeadSide | catgram/ccg/heads.py:71 | head field `0` picks the left child and `1` the right |
| Heads.Autofile | catgram/ccg/heads.py:54-82 | a walk consumes at least the node's record, and its head carries the node's category with a trailing `[conj]` removed |
| Heads.Ls14 | catgram/ccg/heads.py:85-215 | a walk consumes at least the node's record, and its head carries the node's category with `[X]` removed |
| Heads.Walk | catgram/ccg/heads.py:241-249 | a successful walk from the first record consumes at least one record |
| Heads.SwapAll | catgram/ccg/heads.py:245-246 | every record has groups 3 and 4 exchanged |
| Heads.ParseHead | catgram/ccg/heads.py:218-259 | an unknown method name raises |
| HeadsProofs.AutofileNumbering | catgram/ccg/heads.py:54-82 | `_head_autofile` numbers the leaves 1, 2, 3, … left to right, and its head is one of those leaves |
| HeadsProofs.Ls14Numbering | catgram/ccg/heads.py:85-215 | `_head_ls14` numbers the leaves the same way, and its head is one of them |
| HeadsProofs.ParseHeadLeaf | catgram/ccg/heads.py:218-259 | the head `parse_head` finds is the `k`-th leaf record of the tree, numbered `k` with `1 <= k <=` the leaf count |
| HeadsProofs.Ls14OnePunctuation | catgram/ccg/heads.py:101-118 | with exactly one punctuation child the other child is the head |
| HeadsProofs.Ls14BothPunctuation | catgram/ccg/heads.py:101-113 | with two punctuation children the one written like the parent heads, the left one first, else it raises |
| HeadsProofs.Ls14ConjParent | catgram/ccg/heads.py:97-100 | a `conj` parent without two `conj` children raises |
| HeadsProofs.Ls14ConjChildren | catgram/ccg/heads.py:119-132 | two `conj` children need a `conj` parent; a lone left `conj` yields to the right child; a lone right `conj` raises |
| HeadsProofs.ForwardApplication | catgram/ccg/heads.py:141-167 | in `X/Y Y`, the functor heads unless it is `X/X` or `X/(X\Z)` |
| HeadsProofs.BackwardApplication | catgram/ccg/heads.py:177-204 | in `Y X\Y`, the functor heads unless it is `X\X` or `X\(X/Z)` |
| HeadsProofs.ForwardComposition | catgram/ccg/heads.py:141-167 | in `X/Y Y/Z`, the left functor heads unless it is a modifier |
| HeadsProofs.BackwardComposition | catgram/ccg/heads.py:177-204 | in `Y\Z X\Y`, the right functor heads unless it is a modifier |
| HeadsProofs.AtomsMatchNoRule | catgram/ccg/heads.py:138-215 | three atoms match no rule, so the node is malformed |
| HeadsLayout.AutofileSwap | catgram/ccg/heads.py:54-82 | reading every record with the DepCCG layout is reading the exchanged records with the CCGbank layout |
| HeadsLayout.Ls14Swap | catgram/ccg/heads.py:85-215 | the same for the LS14 walker |
| HeadsLayout.AutoxSwapsFields | catgram/ccg/heads.py:245-246 | `autox=True` only exchanges where the head field and the word are read |
| HeadsLayout.AutoxOnlyAtRoot | catgram/ccg/heads.py:68-70 | the walker as written, with the DepCCG layout at the root only, heads a two-leaf `.autox` tree with the tag `NNP`; `parse_head` as modelled gives `John` |
| HeadsLayout.AutofileExtended | catgram/ccg/heads.py:64-82 | records after a subtree do not change how it is read |
| HeadsLayout.Ls14Extended | catgram/ccg/heads.py:88-215 | the same for the LS14 walker |
| HeadsLayout.ParseHeadTrailing | catgram/ccg/heads.py:254-259 | a tree followed by more records is malformed, whatever they are |
| CandcIgnore.CommentDropped | catgram/ccg/candc_ignore.py:191 | a `#` line contributes no entry |
| CandcIgnore.LineInTable | catgram/ccg/candc_ignore.py:135-257 | every non-comment line of either list, split on whitespace, is in `deps_to_ignore` |
| CandcIgnore.TableFromLines | catgram/ccg/candc_ignore.py:135-257 | every entry of `deps_to_ignore` comes from a non-comment line of one of the lists |
| CandcIgnore.FieldsInTable | catgram/ccg/candc_ignore.py:136 | a line that is its fields joined by spaces contributes exactly those fields |
| CandcIgnore.IgnoreKeys | catgram/ccg/candc_ignore.py:260-267 | a dependency is ignored exactly when one of its four keys is in the table |
| CandcIgnore.RuleIgnored | catgram/ccg/candc_ignore.py:263 | an ignored rule id ignores every dependency of that rule |
| CandcIgnore.IgnoreUnion | catgram/ccg/candc_ignore.py:257 | ignoring by the union is ignoring by either table |
| CandcIgnore.IgnoreDepEither | catgram/ccg/candc_ignore.py:257-267 | `ignore_dep` holds exactly when the Java list or the original list ignores the dependency |
| CandcIgnore.RuleLine | catgram/ccg/candc_ignore.py:138-152 | the first fifteen lines of the Java list are `rule_id` with the fifteen ignored rule ids |
| CandcIgnore.RuleIdsIgnored | catgram/ccg/candc_ignore.py:138-152 | every dependency of rules 7, 11, 12, 14–17, 51, 52, 56, 91, 92, 95, 96 and 98 is ignored |
| CandcIgnore.ConjIgnored | catgram/ccg/candc_ignore.py:153 | slot 1 of `conj` under rule 0 is ignored, whatever the predicate and argument |

## Left out

- I/O is not modelled: reading `.auto` files, `file_deps`, `parse_roots`, and anything touching `Path`.
- Logging is not modelled. The lenient parser's warnings, and `score_sentence`'s missing-root warnings, have no effect on results.
- Dependencies.ScoreSentence: models only the three integer counts. Precision, recall and F1 are floating point and are left out.
- Dependencies.ScoreSentence: a label whose slot `get_arg` rejects fails with one `LabelFailed` error that does not say which label failed.
- Heads.Autofile and Heads.Ls14: read a sequence of node records, one per match of `node_re`, not the raw `.auto` text. The regular expression itself is left out.
- Heads.ParseHead: threads the chosen field layout to every node. This is the corrected behaviour; the code as written is under "Findings".
- Heads.ParseHead: lumps every exception other than a malformed tree under one error, as `parse_head` does.
- The exceptions of the other walkers are distinguished only as far as the code raises them.
- HeadTokens.HeadFromStr: the category is parsed with a fresh, empty intern table rather than the shared `INSTANCES`. The same holds for the strings parsed by the head walkers.
- Text.ParseInt: accepts an optional `-` or `+` followed by ASCII digits. Python's `int()` also takes surrounding whitespace, underscores between digits and non-ASCII digits; those are left out.
- TermGraphs.TermAt: bounds the recursion of `_get_term` by a `fuel` parameter. On a linkage with a cycle, the source overflows the Python stack; the model returns `TooDeep`.
- The `lambda_calculus` library is not modelled. Terms are a three-constructor datatype, and `Variable.with_valid_name` is taken to keep the label.
- `@cache` and `@cached_property` are left out. They memoise pure results, so values are unchanged.
- `_lev_matches` results are recomputed per call.
- `TypeError` checks on argument types (`isinstance`) are left out. Dafny's types make them unreachable.
- `decompose_category`'s `ValueError` for a polarity that is not a boolean is unreachable for the same reason.
- The `__repr__` methods are left out, as is `ProofFrameNode.__repr__`.
- CandcIgnore: the two raw-string blobs are written out as the lists of lines that `.strip().split("\n")` produces; the splitting of the blob itself is not modelled.
- CandcIgnore.RuleIdsIgnored and CandcIgnore.ConjIgnored: membership of concrete entries is proved only for the short lines (the rule ids and `conj 1 0`). Longer lines are covered only by the general lemma CandcIgnore.LineInTable.
- The licence text and the provenance comment of `candc_ignore.py` are left out.
- CategoryRoundTrip.FromStrToStr: assumes a table consistent with the notation. CategoryRoundTrip.RoundTripIffConsistent shows the round trip fails for some tree from any other table. That every parse, in any notation, keeps a table consistent is not proved in general. It is proved for the parse of a rendering (this lemma), for any entry that a fresh parse of its key does not contradict (CategoryRoundTrip.InternHarmless), and for the two example tables of CategoryConsistency.
- CategoryRoundTrip.LevelRoundTrip: assumes a table consistent with the notation, as CategoryRoundTrip.FromStrToStr does.
- CategoryRoundTrip.FromStrToStr: excludes left-associative Lambek notation. In that notation a backslash writes its argument first, so the rendering is not read back by the left-associative parser.
- CategoryParser.Level: models the left-associative chain step as corrected. When the chain prefix is cached, it reuses the cached tree; the code as written raises `AssertionError` (see "## Findings", and CategoryParserAsWritten.LevelAgrees for how the two relate).
- CategoryParser.Loop: the same corrected chain step.
- CategoryParser.FromStr: parses with the corrected chain step, so in left-associative notation it can succeed where the code as written raises. CategoryParserAsWritten.FromStrAgrees states that every result the code does return is this one.
- CategoryRoundTrip.LevelRoundTrip: its left-associative case holds for the corrected parser. For the code as written it holds only when no chain prefix is cached; otherwise the code raises.
- CategoryRoundTrip.FromStrToStr: its left-associative case is proved for the corrected parser. For the code as written, CategoryParserAsWritten.FromStrToStrAsWritten proves only "raises or reads the rendering back".
- CategoryVariants.FromStrStrayClose: its left-associative case reads the rendering with the corrected chain step. The code as written raises instead when a chain prefix of the rendering is cached.
- CategoryVariants.FromStrUnclosed: the same qualification for its left-associative case.
- CategoryVariants.FromStrRedundantParens: in left-associative notation the inner level is read with the corrected chain step. As written, a cached chain prefix inside the parentheses raises `AssertionError` before the parenthesised-expression error.
- CategoryInterner.Interner.ParseStr: runs the corrected chain step, being proved equal to CategoryParser.Level.
- CategoryInterner.Interner.ReadSlash: performs the corrected chain step; as written, a cached chain prefix raises.
- CategoryInterner.Interner.FromStr: inherits the corrected chain step through ParseStr.

## Findings

| source | as written | input that shows it | evidently intended | confidence | as-written member | corrected member |
|---|---|---|---|---|---|---|
| catgram/ccg/heads.py:68-70 | the recursive calls of `_head_autofile` pass only the iterator and `idx`, so every node below the root falls back to `head_idx=3, word_idx=4` even when `parse_head(..., autox=True)` set `head_idx=4, word_idx=3` | `parse_head("(<T S fa 0 2> (<L NP John NNP NP>) (<L VP sleeps VBZ VP>))", "autofile", autox=True)` heads with the tag `NNP` instead of the word `John` | the DepCCG layout applies to every node, as `_head_ls14` does by passing `head_idx` and `word_idx` on (lines 93, 95) | not executed | HeadsLayout.AutoxOnlyAtRoot | Heads.ParseHead (with HeadsLayout.AutoxSwapsFields) |
| catgram/category_tree.py:157-163 | when the prefix of a left-associative chain is already interned, `left` is rebound to the cached tree before the sanity check, which then compares it with `cls(root, left, right)`, a tree containing it; the assertion can never hold | `from_str("A/B")` followed by `from_str("A/B/C", left_associative=True)` raises `AssertionError`; so does `from_str("A/B/C/(A/B/D)", left_associative=True)` from an empty table | the cached tree is checked against the tree the three variables would build, as the other sanity checks do (lines 225-227), and reused | not executed | CategoryParserAsWritten.CachedPrefixAborts | CategoryParser.Level (with CategoryRoundTrip.FromStrToStr and CategoryParserAsWritten.LevelAgrees) |
