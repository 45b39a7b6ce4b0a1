/**
 * Term graphs of a sequent (`TermGraph`): the lexical decompositions of the
 * categories laid side by side, one label per node (a word label on each
 * category's target node, `atom_index` elsewhere), and the semantic term
 * read off a node by following the linkage from positive to negative nodes.
 */
module TermGraphs {
  import opened Wrappers
  import opened Text
  import opened CategoryTree
  import opened CategoryParser
  import opened CategoryInterner
  import opened LexicalDecomposition

  /** An entry of the `categories` argument: a tree, a string still to be parsed, or `None`. */
  datatype CatInput = Given(cat: Cat) | Written(text: string) | Missing

  /** The terms of the untyped lambda calculus that `_get_term` builds. */
  datatype Term = Var(name: string) | Abs(param: string, body: Term) | App(fn: Term, arg: Term)

  /** What the constructor raises. */
  datatype GraphError =
    | ParseFailed(error: ParseError)  // `from_str` on a string category
    | NoCategories                    // `sentential % 0`: ZeroDivisionError
    | WordCountMismatch               // ValueError: words and categories differ in number
    | NoSententialCategory            // the sentential category is `None`: AttributeError

  /** What `get_term` and `_get_term` raise; `TooDeep` stands for running out of recursion. */
  datatype TermError =
    | NoSuchWord(word: int)           // IndexError on `clens` / `decomps`
    | NoDecomposition(word: int)      // the word's category is `None`: AttributeError
    | NoSuchNode(node: int)           // IndexError on `nodes`
    | NoSuchLabel(node: int)          // IndexError on `labels`
    | TooDeep

  /** Python's `xs[i]` for a list of length `n`: negative indices count from the end. */
  function PyIndex(i: int, n: nat): (r: Option<nat>)
    ensures r.Some? <==> -(n as int) <= i < n
    ensures r.Some? ==> r.value < n && (r.value == i || r.value == i + n)
  {
    if 0 <= i < n then Some(i) else if -(n as int) <= i < 0 then Some(i + n) else None
  }

  /* ---------------- categories ---------------- */

  datatype Resolved = Resolved(res: Result<seq<Option<Cat>>, ParseError>, table: Table)

  /** The default flags of `from_str`: right-associative output, no Lambek order, strict. */
  const DefaultConfig := Config(false, false, true)

  /**
   * The list comprehension converting `categories`: strings are parsed with
   * `from_str`'s default flags, threading the intern table; the first
   * string that fails to parse ends it.
   */
  function Resolve(inputs: seq<CatInput>, table: Table): (r: Resolved)
    ensures r.res.Success? ==> |r.res.value| == |inputs|
  {
    if |inputs| == 0 then Resolved(Success([]), table)
    else
      var p := Resolve(inputs[..|inputs| - 1], table);
      if p.res.Failure? then p
      else
        match inputs[|inputs| - 1]
        case Given(c) => Resolved(Success(p.res.value + [Some(c)]), p.table)
        case Missing => Resolved(Success(p.res.value + [None]), p.table)
        case Written(s) =>
          var q := CategoryParser.FromStr(s, DefaultConfig, p.table);
          if q.res.Failure? then Resolved(Failure(q.res.error), q.table)
          else Resolved(Success(p.res.value + [Some(q.res.value)]), q.table)
  }

  /** Trees and `None`s pass through the conversion unchanged. */
  lemma {:induction false} ResolveGiven(inputs: seq<CatInput>, table: Table)
    requires forall i :: 0 <= i < |inputs| ==> !inputs[i].Written?
    ensures var r := Resolve(inputs, table);
            r.table == table && r.res.Success?
            && forall i :: 0 <= i < |inputs| ==>
                 r.res.value[i] == if inputs[i].Given? then Some(inputs[i].cat) else None
  {
    if |inputs| > 0 {
      ResolveGiven(inputs[..|inputs| - 1], table);
    }
  }

  /* ---------------- sentential index and words ---------------- */

  /** `sentential % len(categories)` (Python's `%` with a positive divisor is never negative). */
  function NormaliseSentential(sentential: Option<int>, n: nat): (r: Result<Option<nat>, GraphError>)
    ensures r.Failure? <==> sentential.Some? && n == 0
    ensures r.Success? ==> (r.value.Some? <==> sentential.Some?)
    ensures r.Success? && r.value.Some? ==> r.value.value < n
    ensures r.Success? && r.value.Some? && -(n as int) <= sentential.value < n ==>
              Some(r.value.value) == PyIndex(sentential.value, n)
  {
    match sentential
    case None => Success(None)
    case Some(s) =>
      if n == 0 then Failure(NoCategories)
      else
        ModInRange(s, n);
        Success(Some(s % n))
  }

  /** An index in `-n .. n-1` reduced modulo `n` is the list position Python's indexing picks. */
  lemma ModInRange(s: int, n: nat)
    requires n > 0
    ensures -(n as int) <= s < n ==> Some(s % n) == PyIndex(s, n)
  {
    if -(n as int) <= s < 0 {
      NegativeMod(s, n);
    }
  }

  /** A negative index no smaller than `-n` is `s + n` modulo `n`. */
  lemma NegativeMod(s: int, n: nat)
    requires n > 0 && -(n as int) <= s < 0
    ensures s % n == s + n
  {
    var q := s / n;
    MulSign(n, q);
    assert q == -1;
  }

  lemma MulSign(n: int, q: int)
    requires n > 0
    ensures (q <= -2 ==> n * q <= -2 * n) && (q >= 0 ==> n * q >= 0)
  {
  }

  /** The characters `_unsafe` removes from word labels. */
  predicate Unsafe(ch: char) {
    ch == '(' || ch == ')' || ch == '.' || ch == 'λ'
  }

  /** `_unsafe.sub("", word)`. */
  function Sanitise(w: string): (r: string)
    ensures |r| <= |w| && forall k :: 0 <= k < |r| ==> !Unsafe(r[k])
  {
    if |w| == 0 then [] else Sanitise(w[..|w| - 1]) + (if Unsafe(w[|w| - 1]) then [] else [w[|w| - 1]])
  }

  /** Sanitising leaves a word without unsafe characters unchanged. */
  lemma {:induction false} SanitiseSafe(w: string)
    requires forall k :: 0 <= k < |w| ==> !Unsafe(w[k])
    ensures Sanitise(w) == w
  {
    if |w| > 0 {
      SanitiseSafe(w[..|w| - 1]);
      assert w[..|w| - 1] + [w[|w| - 1]] == w;
    }
  }

  /** The default label of word `i`: `<w_i>`. */
  function Placeholder(i: nat): string {
    "<w_" + IntToString(i) + ">"
  }

  /** The label of word `i` given as `w`: `w_i` after sanitising, or the placeholder if nothing is left. */
  function WordLabel(w: string, i: nat): (r: string)
    ensures Sanitise(w) == [] ==> r == Placeholder(i)
    ensures Sanitise(w) != [] ==> r == Sanitise(w) + "_" + IntToString(i)
  {
    var s := Sanitise(w);
    if s == [] then Placeholder(i) else s + "_" + IntToString(i)
  }

  /** The `words` attribute: placeholders, overridden by the given words; a count mismatch raises. */
  function WordLabels(n: nat, words: Option<seq<string>>): (r: Result<seq<string>, GraphError>)
    ensures r.Failure? <==> words.Some? && |words.value| != n
    ensures r.Success? ==> |r.value| == n
  {
    match words
    case None => Success(seq(n, i requires 0 <= i < n => Placeholder(i)))
    case Some(ws) =>
      if |ws| != n then Failure(WordCountMismatch)
      else Success(seq(n, i requires 0 <= i < n => WordLabel(ws[i], i)))
  }

  /* ---------------- decompositions, nodes and labels ---------------- */

  /** The decomposition of category `i`: positive exactly for the sentential category. */
  function DecompFor(cats: seq<Option<Cat>>, sentential: Option<nat>, i: nat): (r: Option<Decomp>)
    requires i < |cats|
    ensures r.Some? <==> cats[i].Some?
  {
    if cats[i].None? then None else Some(Decompose(cats[i].value, sentential == Some(i)))
  }

  /** The `decomps` attribute. */
  function Decomps(cats: seq<Option<Cat>>, sentential: Option<nat>): (r: seq<Option<Decomp>>)
    ensures |r| == |cats| && forall i :: 0 <= i < |cats| ==> r[i] == DecompFor(cats, sentential, i)
  {
    seq(|cats|, i requires 0 <= i < |cats| => DecompFor(cats, sentential, i))
  }

  /** The number of nodes of an optional decomposition. */
  function BlockSize(d: Option<Decomp>): nat {
    if d.None? then 0 else |d.value.nodes|
  }

  /** The `nodes` attribute: every decomposition's nodes, one block after another. */
  function Flatten(ds: seq<Option<Decomp>>): (r: seq<Node>) {
    if |ds| == 0 then [] else
      var last := ds[|ds| - 1];
      Flatten(ds[..|ds| - 1]) + (if last.None? then [] else last.value.nodes)
  }

  /** The `clens` attribute: where each decomposition's block starts. */
  function Clens(ds: seq<Option<Decomp>>): (r: seq<nat>)
    ensures |r| == |ds|
  {
    if |ds| == 0 then [] else Clens(ds[..|ds| - 1]) + [|Flatten(ds[..|ds| - 1])|]
  }

  /** Every present decomposition's target is one of its nodes. */
  predicate TargetsInRange(ds: seq<Option<Decomp>>) {
    forall i :: 0 <= i < |ds| && ds[i].Some? ==> 0 <= ds[i].value.target < |ds[i].value.nodes|
  }

  /** Block `i` starts at `clens[i]` and fits before block `i + 1` and before the end. */
  predicate Placed(ds: seq<Option<Decomp>>, clens: seq<nat>, n: nat) {
    |clens| == |ds|
    && (forall i :: 0 <= i < |ds| ==> clens[i] + BlockSize(ds[i]) <= n)
    && (forall i, j :: 0 <= i < j < |ds| ==> clens[i] + BlockSize(ds[i]) <= clens[j])
  }

  /** The `labels` attribute before the word labels: `atom_index` for every node. */
  function NodeLabels(nodes: seq<Node>): (r: seq<string>)
    ensures |r| == |nodes| && forall p :: 0 <= p < |nodes| ==> r[p] == nodes[p].atom + "_" + IntToString(p)
  {
    seq(|nodes|, p requires 0 <= p < |nodes| => nodes[p].atom + "_" + IntToString(p))
  }

  /** The labels after the first `k` words have been written on their categories' target nodes. */
  function Relabel(base: seq<string>, words: seq<string>, ds: seq<Option<Decomp>>, clens: seq<nat>, k: nat)
    : (r: seq<string>)
    requires |words| == |ds| && k <= |ds| && TargetsInRange(ds) && Placed(ds, clens, |base|)
    ensures |r| == |base|
  {
    if k == 0 then base
    else
      var l := Relabel(base, words, ds, clens, k - 1);
      if ds[k - 1].None? then l else l[clens[k - 1] + ds[k - 1].value.target := words[k - 1]]
  }

  /** The whole state a term graph is built into. */
  datatype Graph = Graph(
    categories: seq<Option<Cat>>, sentential: Option<nat>, linkage: map<int, int>, words: seq<string>,
    decomps: seq<Option<Decomp>>, nodes: seq<Node>, clens: seq<nat>, labels: seq<string>)

  /* ---------------- layout lemmas ---------------- */

  lemma DecompsTargets(cats: seq<Option<Cat>>, sentential: Option<nat>)
    ensures TargetsInRange(Decomps(cats, sentential))
  {
  }

  /** The blocks laid out by `Flatten` end where the last one ends. */
  lemma {:induction false} FlattenLength(ds: seq<Option<Decomp>>)
    ensures |Flatten(ds)| == if |ds| == 0 then 0 else Clens(ds)[|ds| - 1] + BlockSize(ds[|ds| - 1])
  {
  }

  /** The prefix of `clens` is the `clens` of the prefix. */
  lemma ClensPrefix(ds: seq<Option<Decomp>>)
    requires |ds| > 0
    ensures Clens(ds)[..|ds| - 1] == Clens(ds[..|ds| - 1])
  {
  }

  /** Each block starts after the previous one ends, and all of them fit. */
  lemma {:induction false} ClensPlaced(ds: seq<Option<Decomp>>)
    ensures Placed(ds, Clens(ds), |Flatten(ds)|)
  {
    if |ds| > 0 {
      var init := ds[..|ds| - 1];
      var last := ds[|ds| - 1];
      ClensPlaced(init);
      assert init + [last] == ds;
      FlattenSnoc(init, last);
      PlacedExtend(init, Clens(init), |Flatten(init)|, last);
    }
  }

  /** One more block, placed where the others end, keeps the blocks placed. */
  lemma PlacedExtend(ds: seq<Option<Decomp>>, clens: seq<nat>, n: nat, x: Option<Decomp>)
    requires Placed(ds, clens, n)
    ensures Placed(ds + [x], clens + [n], n + BlockSize(x))
  {
    var ds', clens' := ds + [x], clens + [n];
    forall i | 0 <= i < |ds'|
      ensures clens'[i] + BlockSize(ds'[i]) <= n + BlockSize(x)
    {
      if i < |ds| {
        assert clens'[i] == clens[i] && ds'[i] == ds[i];
      }
    }
    forall i, j | 0 <= i < j < |ds'|
      ensures clens'[i] + BlockSize(ds'[i]) <= clens'[j]
    {
      assert clens'[i] == clens[i] && ds'[i] == ds[i];
      if j < |ds| {
        assert clens'[j] == clens[j];
      }
    }
  }

  /** Block `i` of `Flatten` is decomposition `i`'s nodes. */
  lemma {:induction false} FlattenAt(ds: seq<Option<Decomp>>, i: nat, j: nat)
    requires i < |ds| && ds[i].Some? && j < |ds[i].value.nodes|
    ensures Clens(ds)[i] + j < |Flatten(ds)| && Flatten(ds)[Clens(ds)[i] + j] == ds[i].value.nodes[j]
  {
    var init := ds[..|ds| - 1];
    ClensPrefix(ds);
    if i < |ds| - 1 {
      FlattenAt(init, i, j);
      assert Clens(ds)[i] == Clens(init)[i];
    }
  }

  /** Once the first `k` words are written, word `i < k` labels its category's target node. */
  lemma {:induction false} RelabelTarget(base: seq<string>, words: seq<string>, ds: seq<Option<Decomp>>,
                                         clens: seq<nat>, k: nat, i: nat)
    requires |words| == |ds| && k <= |ds| && TargetsInRange(ds) && Placed(ds, clens, |base|)
    requires i < k && ds[i].Some?
    ensures Relabel(base, words, ds, clens, k)[clens[i] + ds[i].value.target] == words[i]
  {
    if i < k - 1 {
      RelabelTarget(base, words, ds, clens, k - 1, i);
    }
  }

  /** A node that is no category's target keeps its `atom_index` label. */
  lemma {:induction false} RelabelElsewhere(base: seq<string>, words: seq<string>, ds: seq<Option<Decomp>>,
                                            clens: seq<nat>, k: nat, p: int)
    requires |words| == |ds| && k <= |ds| && TargetsInRange(ds) && Placed(ds, clens, |base|)
    requires 0 <= p < |base|
    requires forall i :: 0 <= i < |ds| && ds[i].Some? ==> p != clens[i] + ds[i].value.target
    ensures Relabel(base, words, ds, clens, k)[p] == base[p]
  {
    if k > 0 {
      RelabelElsewhere(base, words, ds, clens, k - 1, p);
    }
  }

  /* ---------------- the constructor ---------------- */

  /**
   * `TermGraph.__init__` on converted categories: the sentential index is
   * reduced modulo the number of categories, the word labels are checked and
   * built, the sentential category must exist, and the decompositions, the
   * node list, the block offsets and the labels follow.
   */
  function BuildGraph(cats: seq<Option<Cat>>, sentential: Option<int>, linkage: Option<map<int, int>>,
                 words: Option<seq<string>>): (r: Result<Graph, GraphError>)
  {
    var s :- NormaliseSentential(sentential, |cats|);
    var ws :- WordLabels(|cats|, words);
    if s.Some? && cats[s.value].None? then Failure(NoSententialCategory)
    else
      var ds := Decomps(cats, s);
      var nodes := Flatten(ds);
      var clens := Clens(ds);
      ClensPlaced(ds);
      Success(Graph(cats, s, if linkage.None? then map[] else linkage.value, ws, ds, nodes, clens,
                    Relabel(NodeLabels(nodes), ws, ds, clens, |ds|)))
  }

  /** The errors of the constructor, in the order it raises them. */
  lemma BuildErrors(cats: seq<Option<Cat>>, sentential: Option<int>, linkage: Option<map<int, int>>,
                    words: Option<seq<string>>)
    ensures var r := BuildGraph(cats, sentential, linkage, words);
            && (sentential.Some? && |cats| == 0 ==> r == Failure(NoCategories))
            && (!(sentential.Some? && |cats| == 0) && words.Some? && |words.value| != |cats| ==>
                  r == Failure(WordCountMismatch))
            && (r.Failure? <==>
                  (sentential.Some? && |cats| == 0) || (words.Some? && |words.value| != |cats|)
                  || (sentential.Some? && |cats| > 0 && cats[sentential.value % |cats|].None?))
  {
  }

  /** A graph state as the constructor leaves it, whatever the inputs. */
  predicate WellBuilt(g: Graph) {
    && (g.sentential.Some? ==> g.sentential.value < |g.categories|)
    && |g.words| == |g.categories|
    && g.decomps == Decomps(g.categories, g.sentential)
    && g.nodes == Flatten(g.decomps) && g.clens == Clens(g.decomps)
    && TargetsInRange(g.decomps) && Placed(g.decomps, g.clens, |g.nodes|)
    && g.labels == Relabel(NodeLabels(g.nodes), g.words, g.decomps, g.clens, |g.decomps|)
  }

  lemma BuildWellBuilt(cats: seq<Option<Cat>>, sentential: Option<int>, linkage: Option<map<int, int>>,
                       words: Option<seq<string>>)
    requires BuildGraph(cats, sentential, linkage, words).Success?
    ensures var g := BuildGraph(cats, sentential, linkage, words).value;
            WellBuilt(g) && g.categories == cats
            && (g.sentential.Some? ==> g.categories[g.sentential.value].Some?)
  {
    var g := BuildGraph(cats, sentential, linkage, words).value;
    ClensPlaced(g.decomps);
    DecompsTargets(cats, g.sentential);
  }

  /** Category `i`'s decomposition occupies the nodes from `clens[i]` on: node `p` there is its node `p - clens[i]`. */
  lemma GraphBlocks(g: Graph)
    requires WellBuilt(g)
    ensures |g.decomps| == |g.clens| == |g.words| == |g.categories| && |g.labels| == |g.nodes|
    ensures forall i :: 0 <= i < |g.decomps| && g.decomps[i].Some? ==> g.clens[i] + |g.decomps[i].value.nodes| <= |g.nodes|
    ensures forall i, p :: 0 <= i < |g.decomps| && g.decomps[i].Some? && g.clens[i] <= p < g.clens[i] + |g.decomps[i].value.nodes| ==>
              g.nodes[p] == g.decomps[i].value.nodes[p - g.clens[i]]
  {
    BlockNodes(g.decomps, g.nodes, g.clens);
  }

  lemma {:induction false} BlockNodes(ds: seq<Option<Decomp>>, nodes: seq<Node>, clens: seq<nat>)
    requires nodes == Flatten(ds) && clens == Clens(ds) && Placed(ds, clens, |nodes|)
    ensures forall i, p :: 0 <= i < |ds| && ds[i].Some? && clens[i] <= p < clens[i] + |ds[i].value.nodes| ==>
              nodes[p] == ds[i].value.nodes[p - clens[i]]
  {
    forall i, p | 0 <= i < |ds| && ds[i].Some? && clens[i] <= p < clens[i] + |ds[i].value.nodes|
      ensures nodes[p] == ds[i].value.nodes[p - clens[i]]
    {
      BlockNode(ds, nodes, clens, i, p);
    }
  }

  lemma {:induction false} BlockNode(ds: seq<Option<Decomp>>, nodes: seq<Node>, clens: seq<nat>, i: int, p: int)
    requires nodes == Flatten(ds) && clens == Clens(ds)
    requires 0 <= i < |ds| && ds[i].Some? && clens[i] <= p < clens[i] + |ds[i].value.nodes|
    ensures p < |nodes| && nodes[p] == ds[i].value.nodes[p - clens[i]]
  {
    var j := p - clens[i];
    FlattenAt(ds, i, j);
    assert clens[i] + j == p;
  }

  /**
   * The target node of category `i` carries its word label and its target
   * atom, and is positive exactly for the sentential category.
   */
  lemma GraphTargets(g: Graph)
    requires WellBuilt(g)
    ensures forall i :: 0 <= i < |g.categories| && g.categories[i].Some? ==>
              var t := g.clens[i] + g.decomps[i].value.target;
              t < |g.nodes| && g.labels[t] == g.words[i] && g.nodes[t].atom == TargetAtom(g.categories[i].value)
              && (g.nodes[t].positive <==> g.sentential == Some(i))
  {
    forall i | 0 <= i < |g.categories| && g.categories[i].Some?
      ensures var t := g.clens[i] + g.decomps[i].value.target;
              t < |g.nodes| && g.labels[t] == g.words[i] && g.nodes[t].atom == TargetAtom(g.categories[i].value)
              && (g.nodes[t].positive <==> g.sentential == Some(i))
    {
      GraphTarget(g, i);
    }
  }

  lemma GraphTarget(g: Graph, i: int)
    requires WellBuilt(g) && 0 <= i < |g.categories| && g.categories[i].Some?
    ensures var t := g.clens[i] + g.decomps[i].value.target;
            t < |g.nodes| && g.labels[t] == g.words[i] && g.nodes[t].atom == TargetAtom(g.categories[i].value)
            && (g.nodes[t].positive <==> g.sentential == Some(i))
  {
    var t := BlockTarget(g.decomps, g.nodes, g.clens, g.words, g.labels, i);
    assert g.decomps[i] == DecompFor(g.categories, g.sentential, i);
  }

  /** The target node of block `i`, and the label written on it. */
  lemma BlockTarget(ds: seq<Option<Decomp>>, nodes: seq<Node>, clens: seq<nat>, words: seq<string>, labels: seq<string>,
                    i: int) returns (t: int)
    requires nodes == Flatten(ds) && clens == Clens(ds) && |words| == |ds|
    requires TargetsInRange(ds) && Placed(ds, clens, |nodes|)
    requires labels == Relabel(NodeLabels(nodes), words, ds, clens, |ds|)
    requires 0 <= i < |ds| && ds[i].Some?
    ensures t == clens[i] + ds[i].value.target && 0 <= t < |nodes| && t < |labels|
    ensures nodes[t] == ds[i].value.nodes[ds[i].value.target] && labels[t] == words[i]
  {
    t := clens[i] + ds[i].value.target;
    FlattenAt(ds, i, ds[i].value.target);
    RelabelTarget(NodeLabels(nodes), words, ds, clens, |ds|, i);
  }

  /** A node that is no category's target is labelled `atom_index`. */
  lemma GraphOtherLabels(g: Graph, p: int)
    requires WellBuilt(g) && 0 <= p < |g.nodes|
    requires forall i :: 0 <= i < |g.decomps| && g.decomps[i].Some? ==> p != g.clens[i] + g.decomps[i].value.target
    ensures p < |g.labels| && g.labels[p] == g.nodes[p].atom + "_" + IntToString(p)
  {
    RelabelElsewhere(NodeLabels(g.nodes), g.words, g.decomps, g.clens, |g.decomps|, p);
  }

  /* ---------------- reading terms ---------------- */

  /**
   * `_get_term(idx)` with `fuel` bounding the recursion. A positive node
   * takes the term of the node it is linked to (or, unlinked, a variable
   * named by its label) and abstracts it over its children's labels, the
   * last child outermost; a negative node applies the variable named by its
   * label to its children's terms, the first child innermost. Indices are
   * Python list indices, so negative ones count from the end.
   */
  function TermAt(nodes: seq<Node>, labels: seq<string>, linkage: map<int, int>, idx: int, fuel: nat)
    : (r: Result<Term, TermError>)
    requires |labels| == |nodes|
    decreases fuel, 0
  {
    if fuel == 0 then Failure(TooDeep)
    else
      match PyIndex(idx, |nodes|)
      case None => Failure(NoSuchNode(idx))
      case Some(i) =>
        var node := nodes[i];
        if node.positive then
          var body := if idx in linkage then TermAt(nodes, labels, linkage, linkage[idx], fuel - 1)
                      else Success(Var(labels[i]));
          if body.Failure? then body
          else Abstract(labels, idx, node.children, |node.children|, body.value)
        else Apply(nodes, labels, linkage, idx, node.children, |node.children|, Var(labels[i]), fuel - 1)
  }

  /** The abstraction loop after `k` children: `term = Abstraction(labels[idx + child], term)`. */
  function Abstract(labels: seq<string>, idx: int, children: seq<int>, k: nat, body: Term): (r: Result<Term, TermError>)
    requires k <= |children|
  {
    if k == 0 then Success(body)
    else
      var t := Abstract(labels, idx, children, k - 1, body);
      if t.Failure? then t
      else
        match PyIndex(idx + children[k - 1], |labels|)
        case None => Failure(NoSuchLabel(idx + children[k - 1]))
        case Some(j) => Success(Abs(labels[j], t.value))
  }

  /** The application loop after `k` children: `term = Application(term, _get_term(idx + child))`. */
  function Apply(nodes: seq<Node>, labels: seq<string>, linkage: map<int, int>, idx: int, children: seq<int>,
                 k: nat, head: Term, fuel: nat): (r: Result<Term, TermError>)
    requires |labels| == |nodes| && k <= |children|
    decreases fuel, 1, k
  {
    if k == 0 then Success(head)
    else
      var t := Apply(nodes, labels, linkage, idx, children, k - 1, head, fuel);
      if t.Failure? then t
      else
        var a := TermAt(nodes, labels, linkage, idx + children[k - 1], fuel);
        if a.Failure? then a else Success(App(t.value, a.value))
  }

  /**
   * The recursion bound only ever cuts the computation short: any outcome
   * other than running out of fuel is the same with more fuel.
   */
  lemma {:induction false} TermAtFuel(nodes: seq<Node>, labels: seq<string>, linkage: map<int, int>, idx: int,
                                      fuel: nat, more: nat)
    requires |labels| == |nodes| && fuel <= more
    requires TermAt(nodes, labels, linkage, idx, fuel) != Failure(TooDeep)
    ensures TermAt(nodes, labels, linkage, idx, more) == TermAt(nodes, labels, linkage, idx, fuel)
    decreases fuel, 0
  {
    match PyIndex(idx, |nodes|)
    case None =>
    case Some(i) =>
      var node := nodes[i];
      if node.positive {
        if idx in linkage {
          TermAtFuel(nodes, labels, linkage, linkage[idx], fuel - 1, more - 1);
        }
      } else {
        ApplyFuel(nodes, labels, linkage, idx, node.children, |node.children|, Var(labels[i]), fuel - 1, more - 1);
      }
  }

  lemma {:induction false} ApplyFuel(nodes: seq<Node>, labels: seq<string>, linkage: map<int, int>, idx: int,
                                     children: seq<int>, k: nat, head: Term, fuel: nat, more: nat)
    requires |labels| == |nodes| && k <= |children| && fuel <= more
    requires Apply(nodes, labels, linkage, idx, children, k, head, fuel) != Failure(TooDeep)
    ensures Apply(nodes, labels, linkage, idx, children, k, head, more)
            == Apply(nodes, labels, linkage, idx, children, k, head, fuel)
    decreases fuel, 1, k
  {
    if k > 0 {
      var t := Apply(nodes, labels, linkage, idx, children, k - 1, head, fuel);
      ApplyFuel(nodes, labels, linkage, idx, children, k - 1, head, fuel, more);
      if t.Success? {
        TermAtFuel(nodes, labels, linkage, idx + children[k - 1], fuel, more);
      }
    }
  }

  /** Once the abstraction loop has failed, it stays failed. */
  lemma {:induction false} AbstractStuck(labels: seq<string>, idx: int, children: seq<int>, k: nat, m: nat, body: Term)
    requires k <= m <= |children| && Abstract(labels, idx, children, k, body).Failure?
    ensures Abstract(labels, idx, children, m, body) == Abstract(labels, idx, children, k, body)
    decreases m
  {
    if k < m {
      AbstractStuck(labels, idx, children, k, m - 1, body);
    }
  }

  /** Once the application loop has failed, it stays failed. */
  lemma {:induction false} ApplyStuck(nodes: seq<Node>, labels: seq<string>, linkage: map<int, int>, idx: int,
                                      children: seq<int>, k: nat, m: nat, head: Term, fuel: nat)
    requires |labels| == |nodes| && k <= m <= |children|
    requires Apply(nodes, labels, linkage, idx, children, k, head, fuel).Failure?
    ensures Apply(nodes, labels, linkage, idx, children, m, head, fuel)
            == Apply(nodes, labels, linkage, idx, children, k, head, fuel)
    decreases m
  {
    if k < m {
      ApplyStuck(nodes, labels, linkage, idx, children, k, m - 1, head, fuel);
    }
  }

  /** Once a conversion has failed, the later inputs are not looked at. */
  lemma {:induction false} ResolveStuck(inputs: seq<CatInput>, k: nat, m: nat, table: Table)
    requires k <= m <= |inputs| && Resolve(inputs[..k], table).res.Failure?
    ensures Resolve(inputs[..m], table) == Resolve(inputs[..k], table)
    decreases m
  {
    if k < m {
      ResolveStuck(inputs, k, m - 1, table);
      assert inputs[..m][..m - 1] == inputs[..m - 1];
    }
  }

  /** `get_term(idx)`: the term of word `idx`'s target node; a word without a category raises. */
  function WordTerm(g: Graph, idx: int, fuel: nat): (r: Result<Term, TermError>)
    requires |g.clens| == |g.decomps| && |g.labels| == |g.nodes|
  {
    match PyIndex(idx, |g.clens|)
    case None => Failure(NoSuchWord(idx))
    case Some(w) =>
      if g.decomps[w].None? then Failure(NoDecomposition(idx))
      else TermAt(g.nodes, g.labels, g.linkage, g.clens[w] + g.decomps[w].value.target, fuel)
  }

  /* ---------------- the object ---------------- */

  /** A term graph: the converted categories, the linkage, the word labels and the node layout. */
  class TermGraph {
    var categories: seq<Option<Cat>>
    var sentential: Option<nat>
    var linkage: map<int, int>
    var words: seq<string>
    var decomps: seq<Option<Decomp>>
    var nodes: seq<Node>
    var clens: seq<nat>
    var labels: seq<string>

    /** The attributes as one value. */
    function State(): Graph
      reads this
    {
      Graph(categories, sentential, linkage, words, decomps, nodes, clens, labels)
    }

    /**
     * `__init__` on converted categories, once the checks that raise have
     * passed: the attributes are built list by list, as the source does.
     */
    constructor (cats: seq<Option<Cat>>, sentential: Option<int>, linkage: Option<map<int, int>>,
                 words: Option<seq<string>>)
      requires BuildGraph(cats, sentential, linkage, words).Success?
      ensures State() == BuildGraph(cats, sentential, linkage, words).value
    {
      var s: Option<nat> := None;
      if sentential.Some? {
        s := Some(sentential.value % |cats|);
      }
      var ws := LabelWords(|cats|, words);
      var ds := DecomposeAll(cats, s);
      var ns, cl := LayOut(ds);
      ClensPlaced(ds);
      DecompsTargets(cats, s);
      var ls := LabelNodes(ns, ws, ds, cl);
      categories := cats;
      this.sentential := s;
      this.linkage := if linkage.None? then map[] else linkage.value;
      this.words := ws;
      decomps := ds;
      nodes := ns;
      clens := cl;
      labels := ls;
    }

    /**
     * `TermGraph(categories, sentential=..., linkage=..., words=...)`:
     * string categories are parsed through the intern table first; then
     * the constructor raises or builds.
     */
    static method Create(interner: Interner, inputs: seq<CatInput>, sentential: Option<int>,
                         linkage: Option<map<int, int>>, words: Option<seq<string>>)
      returns (r: Result<TermGraph, GraphError>)
      modifies interner
      ensures var p := Resolve(inputs, old(interner.instances));
              && interner.instances == p.table
              && (p.res.Failure? ==> r == Failure(ParseFailed(p.res.error)))
              && (p.res.Success? ==>
                    var b := BuildGraph(p.res.value, sentential, linkage, words);
                    (r.Failure? <==> b.Failure?) && (r.Failure? ==> r.error == b.error)
                    && (r.Success? ==> fresh(r.value) && r.value.State() == b.value))
    {
      ghost var table := interner.instances;
      var cats: seq<Option<Cat>> := [];
      for i := 0 to |inputs|
        invariant Resolve(inputs[..i], table) == Resolved(Success(cats), interner.instances)
      {
        assert inputs[..i + 1][..i] == inputs[..i];
        match inputs[i]
        case Given(c) =>
          cats := cats + [Some(c)];
        case Missing =>
          cats := cats + [None];
        case Written(text) =>
          var c := interner.FromStr(text, DefaultConfig);
          if c.Failure? {
            ResolveStuck(inputs, i + 1, |inputs|, table);
            assert inputs[..|inputs|] == inputs;
            return Failure(ParseFailed(c.error));
          }
          cats := cats + [Some(c.value)];
      }
      assert inputs[..|inputs|] == inputs;
      if sentential.Some? && |cats| == 0 {
        return Failure(NoCategories);
      }
      if words.Some? && |words.value| != |cats| {
        return Failure(WordCountMismatch);
      }
      if sentential.Some? && cats[sentential.value % |cats|].None? {
        return Failure(NoSententialCategory);
      }
      var g := new TermGraph(cats, sentential, linkage, words);
      return Success(g);
    }

    /** `_get_term(idx)`, recursing through the linkage and the children as the source does. */
    method GetTermAt(idx: int, fuel: nat) returns (r: Result<Term, TermError>)
      requires |labels| == |nodes|
      ensures r == TermAt(nodes, labels, linkage, idx, fuel)
      decreases fuel, 0
    {
      if fuel == 0 {
        return Failure(TooDeep);
      }
      var at := PyIndex(idx, |nodes|);
      if at.None? {
        return Failure(NoSuchNode(idx));
      }
      var node := nodes[at.value];
      if node.positive {
        var body: Term;
        if idx in linkage {
          var linked := GetTermAt(linkage[idx], fuel - 1);
          if linked.Failure? {
            return linked;
          }
          body := linked.value;
        } else {
          body := Var(labels[at.value]);
        }
        r := Abstracted(idx, node.children, body);
      } else {
        r := Applied(idx, node.children, Var(labels[at.value]), fuel - 1);
      }
    }

    /** The loop of a positive node: each child's label abstracted over the term, the last child outermost. */
    method Abstracted(idx: int, children: seq<int>, body: Term) returns (r: Result<Term, TermError>)
      ensures r == Abstract(labels, idx, children, |children|, body)
    {
      var term := body;
      for k := 0 to |children|
        invariant Abstract(labels, idx, children, k, body) == Success(term)
      {
        var j := PyIndex(idx + children[k], |labels|);
        if j.None? {
          AbstractStuck(labels, idx, children, k + 1, |children|, body);
          return Failure(NoSuchLabel(idx + children[k]));
        }
        term := Abs(labels[j.value], term);
      }
      return Success(term);
    }

    /** The loop of a negative node: the term applied to each child's term, the first child innermost. */
    method Applied(idx: int, children: seq<int>, head: Term, fuel: nat) returns (r: Result<Term, TermError>)
      requires |labels| == |nodes|
      ensures r == Apply(nodes, labels, linkage, idx, children, |children|, head, fuel)
      decreases fuel, 1
    {
      var term := head;
      for k := 0 to |children|
        invariant Apply(nodes, labels, linkage, idx, children, k, head, fuel) == Success(term)
      {
        var arg := GetTermAt(idx + children[k], fuel);
        if arg.Failure? {
          ApplyStuck(nodes, labels, linkage, idx, children, k + 1, |children|, head, fuel);
          return arg;
        }
        term := App(term, arg.value);
      }
      return Success(term);
    }

    /** `get_term(idx)`: the term of word `idx`, read from its category's target node. */
    method GetTerm(idx: int, fuel: nat) returns (r: Result<Term, TermError>)
      requires |clens| == |decomps| && |labels| == |nodes|
      ensures r == WordTerm(State(), idx, fuel)
    {
      var w := PyIndex(idx, |clens|);
      if w.None? {
        return Failure(NoSuchWord(idx));
      }
      if decomps[w.value].None? {
        return Failure(NoDecomposition(idx));
      }
      r := GetTermAt(clens[w.value] + decomps[w.value].value.target, fuel);
    }
  }

  /** The `words` loop: placeholders, then each given word that survives sanitising, suffixed with its index. */
  method LabelWords(n: nat, words: Option<seq<string>>) returns (ws: seq<string>)
    requires words.Some? ==> |words.value| == n
    ensures ws == WordLabels(n, words).value
  {
    ws := seq(n, i requires 0 <= i < n => Placeholder(i));
    if words.Some? {
      for i := 0 to n
        invariant |ws| == n
        invariant forall k :: 0 <= k < n ==> ws[k] == if k < i then WordLabel(words.value[k], k) else Placeholder(k)
      {
        var w := Sanitise(words.value[i]);
        if w != [] {
          ws := ws[i := w + "_" + IntToString(i)];
        }
      }
    }
  }

  /** The `decomps` loop, then the sentential category decomposed positive once more. */
  method DecomposeAll(cats: seq<Option<Cat>>, s: Option<nat>) returns (ds: seq<Option<Decomp>>)
    requires s.Some? ==> s.value < |cats| && cats[s.value].Some?
    ensures ds == Decomps(cats, s)
  {
    ds := [];
    for i := 0 to |cats|
      invariant ds == Decomps(cats, s)[..i]
    {
      if cats[i].None? {
        ds := ds + [None];
      } else {
        ds := ds + [Some(Decompose(cats[i].value, s == Some(i)))];
      }
    }
    assert ds == Decomps(cats, s);
    if s.Some? {
      ds := ds[s.value := Some(Decompose(cats[s.value].value, true))];
    }
  }

  /** The `nodes` / `clens` loop: each block's offset is the node count so far. */
  method LayOut(ds: seq<Option<Decomp>>) returns (ns: seq<Node>, cl: seq<nat>)
    ensures ns == Flatten(ds) && cl == Clens(ds)
  {
    ns, cl := [], [];
    for i := 0 to |ds|
      invariant ns == Flatten(ds[..i]) && cl == Clens(ds[..i])
    {
      assert ds[..i + 1][..i] == ds[..i];
      cl := cl + [|ns|];
      if ds[i].Some? {
        ns := ns + ds[i].value.nodes;
      }
    }
    assert ds[..|ds|] == ds;
  }

  /** The `labels` loops: `atom_index` for every node, then each word on its category's target node. */
  method LabelNodes(ns: seq<Node>, ws: seq<string>, ds: seq<Option<Decomp>>, cl: seq<nat>) returns (ls: seq<string>)
    requires |ws| == |ds| && TargetsInRange(ds) && Placed(ds, cl, |ns|)
    ensures ls == Relabel(NodeLabels(ns), ws, ds, cl, |ds|)
  {
    ls := NodeLabels(ns);
    for i := 0 to |ds|
      invariant ls == Relabel(NodeLabels(ns), ws, ds, cl, i)
    {
      if ds[i].Some? {
        ls := ls[cl[i] + ds[i].value.target := ws[i]];
      }
    }
  }

  const NP := Atom("NP")
  const TransitiveVerb := Complex(Fwd, Complex(Bwd, Atom("S"), Atom("NP")), Atom("NP"))
  const Sentence := [Some(NP), Some(TransitiveVerb), Some(NP), Some(Atom("S"))]
  const SentenceWords := ["John", "likes", "Mary", "."]
  const SentenceLinks := map[5 := 2, 1 := 0, 3 := 4]
  const SentenceNodes := [Node("NP", false, []), Node("NP", true, []), Node("S", false, [1, -1]),
                          Node("NP", true, []), Node("NP", false, []), Node("S", true, [])]

  lemma SentenceLabels()
    ensures WordLabels(4, Some(SentenceWords)).value == ["John_0", "likes_1", "Mary_2", "<w_3>"]
  {
    var w := WordLabels(4, Some(SentenceWords)).value;
    SafeLabel("John", 0, "0");
    SafeLabel("likes", 1, "1");
    SafeLabel("Mary", 2, "2");
    DotLabel();
    assert w[0] == WordLabel("John", 0) && w[1] == WordLabel("likes", 1);
    assert w[2] == WordLabel("Mary", 2) && w[3] == WordLabel(".", 3);
    assert "John" + "_" + "0" == "John_0" && "likes" + "_" + "1" == "likes_1" && "Mary" + "_" + "2" == "Mary_2";
  }

  /** A word of safe characters is labelled with itself and its index. */
  lemma SafeLabel(w: string, i: nat, d: string)
    requires w != [] && (forall k :: 0 <= k < |w| ==> !Unsafe(w[k])) && d == IntToString(i)
    ensures WordLabel(w, i) == w + "_" + d
  {
    SanitiseSafe(w);
  }

  lemma DotLabel()
    ensures WordLabel(".", 3) == "<w_3>"
  {
    assert Sanitise(".") == [];
    assert Placeholder(3) == "<w_" + IntToString(3) + ">";
  }

  const SentenceDecomps := [Some(Decomp([Node("NP", false, [])], [], 0)), Some(Decompose(TransitiveVerb, false)),
                            Some(Decomp([Node("NP", false, [])], [], 0)), Some(Decomp([Node("S", true, [])], [], 0))]

  lemma SentenceDecomposed()
    ensures var r := BuildGraph(Sentence, Some(-1), Some(SentenceLinks), Some(SentenceWords));
            r.Success? && r.value.sentential == Some(3) && r.value.linkage == SentenceLinks
            && r.value.decomps == SentenceDecomps
  {
    assert -1 % 4 == 3;
    SentenceDecompsAt();
  }

  lemma SentenceDecompsAt()
    ensures Decomps(Sentence, Some(3)) == SentenceDecomps
  {
    SentenceDecompsEach();
    SameFour(Decomps(Sentence, Some(3)), SentenceDecomps);
  }

  lemma SentenceDecompsEach()
    ensures var ds := Decomps(Sentence, Some(3));
            |ds| == 4 && ds[0] == SentenceDecomps[0] && ds[1] == SentenceDecomps[1]
            && ds[2] == SentenceDecomps[2] && ds[3] == SentenceDecomps[3]
  {
    DecomposeAtom("NP", false);
    DecomposeAtom("S", true);
  }

  lemma SameFour<T>(a: seq<T>, b: seq<T>)
    requires |a| == |b| == 4 && a[0] == b[0] && a[1] == b[1] && a[2] == b[2] && a[3] == b[3]
    ensures a == b
  {
  }


  lemma SentenceFlattened()
    ensures Flatten(SentenceDecomps) == SentenceNodes && Clens(SentenceDecomps) == [0, 1, 4, 5]
  {
    var np := Decomp([Node("NP", false, [])], [], 0);
    var sd := Decomp([Node("S", true, [])], [], 0);
    DecomposeTransitiveVerb("S", "NP");
    var verb := Decompose(TransitiveVerb, false);
    FlattenFour(np, verb, np, sd);
  }

  /** Four decompositions flatten to their nodes in order, the blocks starting at the running totals. */
  lemma FlattenFour(a: Decomp, b: Decomp, c: Decomp, d: Decomp)
    ensures Flatten([Some(a), Some(b), Some(c), Some(d)]) == a.nodes + b.nodes + c.nodes + d.nodes
    ensures Clens([Some(a), Some(b), Some(c), Some(d)])
            == [0, |a.nodes|, |a.nodes| + |b.nodes|, |a.nodes| + |b.nodes| + |c.nodes|]
  {
    var x, y, z, w := Some(a), Some(b), Some(c), Some(d);
    Prefixes(x, y, z, w);
    FlattenSnoc([], x);
    FlattenSnoc([x], y);
    FlattenSnoc([x, y], z);
    FlattenSnoc([x, y, z], w);
  }

  /** A four-element sequence, built up one element at a time. */
  lemma Prefixes<T>(x: T, y: T, z: T, w: T)
    ensures [x, y, z, w] == [x, y, z] + [w] && [x, y, z] == [x, y] + [z] && [x, y] == [x] + [y] && [x] == [] + [x]
  {
  }

  /** Flattening one more decomposition appends its nodes, and its block starts where the others end. */
  lemma FlattenSnoc(ds: seq<Option<Decomp>>, x: Option<Decomp>)
    ensures Flatten(ds + [x]) == Flatten(ds) + (if x.None? then [] else x.value.nodes)
    ensures Clens(ds + [x]) == Clens(ds) + [|Flatten(ds)|]
  {
    assert (ds + [x])[..|ds|] == ds;
  }


  lemma SentenceLayout()
    ensures var r := BuildGraph(Sentence, Some(-1), Some(SentenceLinks), Some(SentenceWords));
            r.Success? && r.value.sentential == Some(3) && r.value.linkage == SentenceLinks
            && r.value.nodes == SentenceNodes && r.value.clens == [0, 1, 4, 5]
            && r.value.decomps[0].value.target == 0 && r.value.decomps[1].value.target == 1
            && r.value.decomps[2].value.target == 0 && r.value.decomps[3].value.target == 0
  {
    SentenceDecomposed();
    SentenceFlattened();
    DecomposeTransitiveVerb("S", "NP");
  }

  /** The term read off the sentence's node, given the word labels on the targets it reaches. */
  lemma SentenceTerm(labels: seq<string>)
    requires |labels| == 6 && labels[0] == "John_0" && labels[2] == "likes_1" && labels[4] == "Mary_2"
    ensures TermAt(SentenceNodes, labels, SentenceLinks, 5, 4)
            == Success(App(App(Var("likes_1"), Var("Mary_2")), Var("John_0")))
  {
    var ns := SentenceNodes;
    assert TermAt(ns, labels, SentenceLinks, 4, 1) == Success(Var("Mary_2"));
    assert TermAt(ns, labels, SentenceLinks, 3, 2) == Success(Var("Mary_2"));
    assert TermAt(ns, labels, SentenceLinks, 0, 1) == Success(Var("John_0"));
    assert TermAt(ns, labels, SentenceLinks, 1, 2) == Success(Var("John_0"));
    assert TermAt(ns, labels, SentenceLinks, 2, 3) == Success(App(App(Var("likes_1"), Var("Mary_2")), Var("John_0")));
  }

  /**
   * "John likes Mary ." with categories `NP`, `(S\NP)/NP`, `NP`, `S`, the
   * last one sentential (given as -1), and the linkage that connects the
   * sentence to the verb and the verb's arguments to the two nouns: the
   * sentence's term applies the verb to the object, then to the subject.
   */
  lemma JohnLikesMary()
    ensures var g := BuildGraph(Sentence, Some(-1), Some(SentenceLinks), Some(SentenceWords));
            g.Success? && g.value.sentential == Some(3)
            && WordTerm(g.value, 3, 4) == Success(App(App(Var("likes_1"), Var("Mary_2")), Var("John_0")))
  {
    var g := SentenceGraph();
    SentenceTerm(g.labels);
  }

  /** The graph of the sentence: its layout, and the word labels on the three words' target nodes. */
  lemma SentenceGraph() returns (g: Graph)
    ensures BuildGraph(Sentence, Some(-1), Some(SentenceLinks), Some(SentenceWords)) == Success(g)
    ensures g.sentential == Some(3) && g.linkage == SentenceLinks && g.nodes == SentenceNodes
    ensures g.clens == [0, 1, 4, 5] && |g.decomps| == 4 && g.decomps[3].Some? && g.decomps[3].value.target == 0
    ensures |g.labels| == 6 && g.labels[0] == "John_0" && g.labels[2] == "likes_1" && g.labels[4] == "Mary_2"
  {
    SentenceLayout();
    SentenceLabels();
    g := BuildGraph(Sentence, Some(-1), Some(SentenceLinks), Some(SentenceWords)).value;
    BuildWellBuilt(Sentence, Some(-1), Some(SentenceLinks), Some(SentenceWords));
    GraphTargets(g);
  }

}
