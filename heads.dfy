/**
 * Head finding over one tree in CCGbank's `.auto` notation. The tree is
 * given as the sequence of its node records in pre-order, one record per
 * `(<T ...>` or `(<L ...>` bracket; a walker reads the record at a
 * position, recurses into the children that follow it and returns the head
 * it found, the leaf counter after it and the position after the subtree.
 * Leaves are numbered 1, 2, 3, ... from the counter handed in.
 *
 * Two walkers: `Autofile` follows the head field of each binary node;
 * `Ls14` applies the rules of Lewis and Steedman (2014) to the categories
 * of the children (punctuation, coordination, then the principal functor).
 */
module Heads {
  import opened Wrappers
  import opened Text
  import opened CategoryTree
  import opened CategoryParser
  import opened CategoryPrinter
  import opened CategoryRoundTrip
  import opened HeadTokens

  /** `T` (inner node) or `L` (leaf). */
  datatype Kind = Tree | Leaf

  /**
   * The groups of one match of the node pattern: the kind, the category
   * (group 2), group 3, the last repetition of the optional group 4 (absent
   * when it matched no field) and the final field (group 5, the child count
   * of an inner node).
   */
  datatype AutoNode = AutoNode(kind: Kind, cat: string, third: string, fourth: Option<string>, last: string)

  /** Which group holds a field. */
  datatype Group = Third | Fourth

  /** Where the head field of inner nodes and the word of leaves are found. */
  datatype Fields = Fields(head: Group, word: Group)

  /** The CCGbank layout: head in group 3, word in group 4. */
  const AutoFields := Fields(Third, Fourth)

  /** The DepCCG layout: the two positions swapped. */
  const AutoxFields := Fields(Fourth, Third)

  function GroupOf(n: AutoNode, g: Group): Option<string> {
    match g
    case Third => Some(n.third)
    case Fourth => n.fourth
  }

  datatype Side = Left | Right

  /** What a walker raises; `Malformed` is the tree-shape error, the rest are other exceptions. */
  datatype WalkError =
    | Malformed
    | NoMoreNodes
    | BadNodeCategory(error: ParseError)
    | MissingField
    | BadHeadField(text: string)
    | HeadOutOfRange(index: int)
    | ConjParentNeedsConjChildren
    | ConjChildrenNeedConjParent
    | LoneRightConj
    | NoProjectingPunctuation

  /** A walker's result: the head, the leaf counter and the position after the subtree. */
  datatype Walked = Walked(head: HeadDependency, idx: int, pos: nat)

  // String rewriting done with regular expressions in the source.

  /** `s` starts with `p`. */
  predicate StartsWith(s: string, p: string) {
    |p| <= |s| && s[..|p|] == p
  }

  /** Python's `p in s` for strings. */
  predicate Contains(s: string, p: string)
    decreases |s|
  {
    StartsWith(s, p) || (|s| > 0 && Contains(s[1..], p))
  }

  /** `re.sub(re.escape(p), "", s)`: every occurrence of `p`, left to right, removed. */
  function RemoveAll(s: string, p: string): (r: string)
    requires |p| > 0
    ensures |r| <= |s|
    decreases |s|
  {
    if |s| == 0 then ""
    else if StartsWith(s, p) then RemoveAll(s[|p|..], p)
    else [s[0]] + RemoveAll(s[1..], p)
  }

  /** `re.sub(r"\[conj]$", "", s)`: a trailing `[conj]` removed. */
  function StripConj(s: string): (r: string)
    ensures |r| <= |s|
  {
    var p := "[conj]";
    if |p| <= |s| && s[|s| - |p|..] == p then s[..|s| - |p|] else s
  }

  /** `slash_re.sub("/", s)`: every escaped slash `\/` becomes `/`. */
  function Unescape(s: string): (r: string)
    ensures |r| <= |s|
    decreases |s|
  {
    if |s| == 0 then ""
    else if StartsWith(s, "\\/") then "/" + Unescape(s[2..])
    else [s[0]] + Unescape(s[1..])
  }

  predicate IsLower(c: char) {
    'a' <= c <= 'z'
  }

  /** The length of the run of lower-case letters `s` starts with. */
  function LowerRun(s: string): (n: nat)
    ensures n <= |s|
  {
    if |s| > 0 && IsLower(s[0]) then 1 + LowerRun(s[1..]) else 0
  }

  /** `feat_re.sub("", s)`: every feature `[abc]` (lower-case letters in brackets) removed. */
  function StripFeatures(s: string): (r: string)
    ensures |r| <= |s|
    decreases |s|
  {
    if |s| == 0 then ""
    else
      var n := LowerRun(s[1..]);
      if s[0] == '[' && n > 0 && n + 1 < |s| && s[n + 1] == ']' then StripFeatures(s[n + 2..])
      else [s[0]] + StripFeatures(s[1..])
  }

  /** `string.punctuation` without the category delimiters `\/()[]`. */
  const Punctuation := "!\"#$%&'*+,-.:;<=>?@^_`{|}~"

  /** `set(s) & punctuation or brackets_re.match(s)`: a punctuation or bracket category. */
  predicate PunctLike(s: string) {
    (exists k :: 0 <= k < |s| && s[k] in Punctuation)
    || (|s| >= 3 && (s[0] == 'L' || s[0] == 'R') && (s[1] == 'R' || s[1] == 'C') && s[2] == 'B')
  }

  /** `CategoryTree.from_str(s)` with the default flags. */
  function ParseCat(s: string): Result<Cat, ParseError> {
    CategoryParser.FromStr(s, DefaultConfig, map[]).res
  }

  /** A leaf record: the counter is bumped and the word (escaped slashes undone) gets it. */
  function LeafHead(m: AutoNode, word: Group, idx: int, cat: Cat, pos: nat): (r: Result<Walked, WalkError>)
    ensures r.Success? ==> r.value.idx == idx + 1 && r.value.head.token.idx == idx + 1 && r.value.pos == pos + 1
    ensures r.Success? <==> GroupOf(m, word).Some?
  {
    match GroupOf(m, word)
    case None => Failure(MissingField)
    case Some(w) => Success(Walked(HeadDependency(WordToken(Unescape(w), idx + 1), cat), idx + 1, pos + 1))
  }

  /** `[head_l, head_r][int(field)]`, negative indices included. */
  function HeadSide(field: Option<string>): (r: Result<Side, WalkError>)
    ensures field == Some("0") ==> r == Success(Left)
    ensures field == Some("1") ==> r == Success(Right)
  {
    match field
    case None => Failure(MissingField)
    case Some(t) =>
      match ParseInt(t)
      case None => Failure(BadHeadField(t))
      case Some(n) =>
        if n == 0 || n == -2 then Success(Left)
        else if n == 1 || n == -1 then Success(Right)
        else Failure(HeadOutOfRange(n))
  }

  /** The number of leaf records in `ns`. */
  function LeafCount(ns: seq<AutoNode>): nat {
    if |ns| == 0 then 0 else (if ns[0].kind == Leaf then 1 else 0) + LeafCount(ns[1..])
  }

  /**
   * `_head_autofile`: the node's category is parsed with a trailing
   * `[conj]` removed; a binary node takes the head of the child its head
   * field names, a unary node its child's head. The fields of the node at
   * `pos` are found where `top` says and those of every node below it
   * where `inner` says.
   */
  function Autofile(nodes: seq<AutoNode>, pos: nat, idx: int, top: Fields, inner: Fields): (r: Result<Walked, WalkError>)
    requires pos <= |nodes|
    ensures r.Success? ==> pos < r.value.pos <= |nodes|
    ensures r.Success? ==> ParseCat(StripConj(nodes[pos].cat)) == Success(r.value.head.cat)
    decreases |nodes| - pos
  {
    if pos == |nodes| then Failure(NoMoreNodes)
    else
      var m := nodes[pos];
      match ParseCat(StripConj(m.cat))
      case Failure(e) => Failure(BadNodeCategory(e))
      case Success(cat) =>
        if m.kind == Leaf then LeafHead(m, top.word, idx, cat, pos)
        else
          var left :- Autofile(nodes, pos + 1, idx, inner, inner);
          if m.last == "2" then
            var right :- Autofile(nodes, left.pos, left.idx, inner, inner);
            var side :- HeadSide(GroupOf(m, top.head));
            var head := if side == Left then left.head.token else right.head.token;
            Success(Walked(HeadDependency(head, cat), right.idx, right.pos))
          else if m.last == "1" then Success(Walked(HeadDependency(left.head.token, cat), left.idx, left.pos))
          else Failure(Malformed)
  }

  /** `X/X` or `X/(X\Y)`: a functor that looks like an adjunct or a type-raised argument. */
  predicate ForwardModifier(c: Cat) {
    ResultOf(c) == ArgumentOf(c)
    || (c.Complex? && c.argument.Complex? && c.argument.slash == Bwd && c.result == c.argument.result)
  }

  /** `X\X` or `X\(X/Y)`. */
  predicate BackwardModifier(c: Cat) {
    ResultOf(c) == ArgumentOf(c)
    || (c.Complex? && c.argument.Complex? && c.argument.slash == Fwd && c.result == c.argument.result)
  }

  predicate IsFwd(c: Cat) {
    c.Complex? && c.slash == Fwd
  }

  predicate IsBwd(c: Cat) {
    c.Complex? && c.slash == Bwd
  }

  /** Forward application, composition and generalised composition: `X/Y Y`, `X/Y Y/Z`, `X/Y (Y/Z)|W`. */
  predicate ForwardRule(p: Cat, l: Cat, r: Cat)
    requires IsFwd(l)
  {
    (l.result == p && l.argument == r)
    || (IsFwd(r) && IsFwd(p) && l.result == p.result && r.argument == p.argument && l.argument == r.result)
    || (Root(r) == Root(p) && p.Complex? && r.Complex? && IsFwd(r.result) && IsFwd(p.result)
        && l.result == p.result.result && r.argument == p.argument
        && r.result.argument == p.result.argument && l.argument == r.result.result)
  }

  /** Backward crossed substitution `Y/Z (X\Y)/Z => X/Z`, headed by the right child. */
  predicate SubstitutionRule(p: Cat, l: Cat, r: Cat) {
    IsFwd(p) && IsFwd(l) && IsFwd(r)
    && p.argument == l.argument && l.argument == r.argument
    && IsBwd(r.result) && r.result.argument == l.result && r.result.result == p.result
  }

  /** Backward application and composition: `Y X\Y`, `Y\Z X\Y`, `(Y/Z)|W X\Y`. */
  predicate BackwardRule(p: Cat, l: Cat, r: Cat)
    requires IsBwd(r)
  {
    (r.result == p && r.argument == l)
    || (Root(l) == Root(p) && p.Complex? && l.Complex? && r.result == p.result && l.argument == p.argument && r.argument == l.result)
    || (Root(l) == Root(p) && p.Complex? && l.Complex? && IsFwd(l.result) && IsFwd(p.result)
        && r.result == p.result.result && l.argument == p.argument
        && l.result.argument == p.result.argument && r.argument == l.result.result)
  }

  /**
   * The functor rules on feature-free categories `p`, `l`, `r` (parent and
   * children) with the children's own categories `catL`, `catR`: the
   * principal functor heads unless it is a modifier; `None` when no rule
   * applies.
   */
  function FunctorHead(p: Cat, l: Cat, r: Cat, catL: Cat, catR: Cat): Option<Side> {
    if IsFwd(l) && ForwardRule(p, l, r) then Some(if ForwardModifier(catL) then Right else Left)
    else if IsFwd(l) && SubstitutionRule(p, l, r) then Some(Right)
    else if IsBwd(r) && BackwardRule(p, l, r) then Some(if BackwardModifier(catR) then Left else Right)
    else None
  }

  /**
   * The LS14 choice at a binary node whose category text is `parent`:
   * coordination checks, punctuation, then the functor rules on the
   * categories with their features removed.
   */
  function Ls14Choose(parent: string, catL: Cat, catR: Cat): (r: Result<Side, WalkError>) {
    var l := Str(catL);
    var rt := Str(catR);
    if Contains(parent, "conj") && (!Contains(l, "conj") || !Contains(rt, "conj")) then Failure(ConjParentNeedsConjChildren)
    else if PunctLike(l) then
      if !PunctLike(rt) then Success(Right)
      else if parent == l then Success(Left)
      else if parent == rt then Success(Right)
      else Failure(NoProjectingPunctuation)
    else if PunctLike(rt) then Success(Left)
    else if Contains(l, "conj") && !Contains(rt, "conj") then Success(Right)
    else if Contains(l, "conj") && !Contains(parent, "conj") then Failure(ConjChildrenNeedConjParent)
    else if Contains(rt, "conj") && !Contains(l, "conj") then Failure(LoneRightConj)
    else
      match ParseCat(StripFeatures(parent))
      case Failure(e) => Failure(BadNodeCategory(e))
      case Success(p) =>
        match ParseCat(StripFeatures(l))
        case Failure(e) => Failure(BadNodeCategory(e))
        case Success(lnf) =>
          match ParseCat(StripFeatures(rt))
          case Failure(e) => Failure(BadNodeCategory(e))
          case Success(rnf) =>
            match FunctorHead(p, lnf, rnf, catL, catR)
            case None => Failure(Malformed)
            case Some(side) => Success(side)
  }

  /**
   * `_head_ls14`: the node's category is parsed with every `[X]` removed;
   * a binary node's head is chosen by `Ls14Choose`, a unary node takes its
   * child's head.
   */
  function Ls14(nodes: seq<AutoNode>, pos: nat, idx: int, f: Fields): (r: Result<Walked, WalkError>)
    requires pos <= |nodes|
    ensures r.Success? ==> pos < r.value.pos <= |nodes|
    ensures r.Success? ==> ParseCat(RemoveAll(nodes[pos].cat, "[X]")) == Success(r.value.head.cat)
    decreases |nodes| - pos
  {
    if pos == |nodes| then Failure(NoMoreNodes)
    else
      var m := nodes[pos];
      var text := RemoveAll(m.cat, "[X]");
      match ParseCat(text)
      case Failure(e) => Failure(BadNodeCategory(e))
      case Success(cat) =>
        if m.kind == Leaf then LeafHead(m, f.word, idx, cat, pos)
        else
          var left :- Ls14(nodes, pos + 1, idx, f);
          if m.last == "2" then
            var right :- Ls14(nodes, left.pos, left.idx, f);
            var side :- Ls14Choose(text, left.head.cat, right.head.cat);
            var head := if side == Left then left.head.token else right.head.token;
            Success(Walked(HeadDependency(head, cat), right.idx, right.pos))
          else if m.last == "1" then Success(Walked(HeadDependency(left.head.token, cat), left.idx, left.pos))
          else Failure(Malformed)
  }

  /** The walker `parse_head` dispatches to: `_head_autofile` or `_head_ls14`, from the first record with counter 0. */
  function Walk(nodes: seq<AutoNode>, name: string, f: Fields): (r: Result<Walked, WalkError>)
    ensures r.Success? ==> 0 < r.value.pos <= |nodes|
  {
    if name == "autofile" then Autofile(nodes, 0, 0, f, f) else Ls14(nodes, 0, 0, f)
  }

  /** A record with groups 3 and 4 exchanged (when group 4 is present). */
  function Swapped(n: AutoNode): AutoNode {
    if n.fourth.Some? then n.(third := n.fourth.value, fourth := Some(n.third)) else n
  }

  function SwapAll(ns: seq<AutoNode>): (r: seq<AutoNode>)
    ensures |r| == |ns| && forall i :: 0 <= i < |ns| ==> r[i] == Swapped(ns[i])
  {
    seq(|ns|, i requires 0 <= i < |ns| => Swapped(ns[i]))
  }

  /** Why `parse_head` raises ValueError. */
  datatype HeadError = UnknownMethod(name: string) | MalformedTree | TreeFailed(error: WalkError)

  /**
   * `parse_head(auto, method, autox=...)`: the walker named by `method`
   * from the first record with a leaf counter of 0, using the DepCCG field
   * layout when `autox` holds; every record must be consumed.
   */
  function ParseHead(nodes: seq<AutoNode>, name: string, autox: bool): (r: Result<HeadDependency, HeadError>)
    ensures name != "autofile" && name != "ls14" ==> r == Failure(UnknownMethod(name))
  {
    var f := if autox then AutoxFields else AutoFields;
    if name != "autofile" && name != "ls14" then Failure(UnknownMethod(name))
    else
      match Walk(nodes, name, f)
      case Failure(Malformed) => Failure(MalformedTree)
      case Failure(e) => Failure(TreeFailed(e))
      case Success(v) => if v.pos < |nodes| then Failure(MalformedTree) else Success(v.head)
  }
}

/** What is proved about the head walkers. */
module HeadsProofs {
  import opened Wrappers
  import opened Text
  import opened CategoryTree
  import opened CategoryParser
  import opened CategoryPrinter
  import opened CategoryRoundTrip
  import opened HeadTokens
  import opened Heads

  // Leaf numbering.

  lemma {:induction false} LeafCountAppend(a: seq<AutoNode>, b: seq<AutoNode>)
    ensures LeafCount(a + b) == LeafCount(a) + LeafCount(b)
  {
    if |a| > 0 {
      LeafCountAppend(a[1..], b);
      assert (a + b)[1..] == a[1..] + b;
    } else {
      assert a + b == b;
    }
  }

  lemma LeafCountSplit(ns: seq<AutoNode>, a: nat, b: nat, c: nat)
    requires a <= b <= c <= |ns|
    ensures LeafCount(ns[a..c]) == LeafCount(ns[a..b]) + LeafCount(ns[b..c])
  {
    assert ns[a..c] == ns[a..b] + ns[b..c];
    LeafCountAppend(ns[a..b], ns[b..c]);
  }

  /** The slice from an inner node's record counts the leaves after it. */
  lemma LeafCountFromTree(ns: seq<AutoNode>, a: nat, b: nat)
    requires a < b <= |ns| && ns[a].kind == Tree
    ensures LeafCount(ns[a..b]) == LeafCount(ns[a + 1..b])
  {
    assert ns[a..b][1..] == ns[a + 1..b];
  }

  /**
   * The head of `w` is the leaf record at some `q` in the subtree read from
   * `pos`, with the word taken from group `word` and the number one past
   * the count of leaves before it.
   */
  predicate HeadLeaf(nodes: seq<AutoNode>, pos: nat, idx: int, word: Group, w: Walked)
    requires pos <= w.pos <= |nodes|
  {
    exists q :: pos <= q < w.pos && nodes[q].kind == Leaf && GroupOf(nodes[q], word).Some?
      && w.head.token == WordToken(Unescape(GroupOf(nodes[q], word).value), idx + LeafCount(nodes[pos..q]) + 1)
  }

  /** The counter after the subtree is the counter before it plus the leaves read. */
  predicate Numbered(nodes: seq<AutoNode>, pos: nat, idx: int, word: Group, w: Walked)
    requires pos <= w.pos <= |nodes|
  {
    w.idx == idx + LeafCount(nodes[pos..w.pos]) && HeadLeaf(nodes, pos, idx, word, w)
  }

  lemma LeafNumbered(nodes: seq<AutoNode>, pos: nat, idx: int, word: Group, cat: Cat)
    requires pos < |nodes| && nodes[pos].kind == Leaf && LeafHead(nodes[pos], word, idx, cat, pos).Success?
    ensures var w := LeafHead(nodes[pos], word, idx, cat, pos).value;
            w.pos <= |nodes| && Numbered(nodes, pos, idx, word, w)
  {
    assert nodes[pos..pos + 1] == [nodes[pos]];
    assert LeafCount(nodes[pos..pos]) == 0;
  }

  /** A unary node keeps its child's counter and head. */
  lemma UnaryNumbered(nodes: seq<AutoNode>, pos: nat, idx: int, word: Group, left: Walked, cat: Cat)
    requires pos < left.pos <= |nodes| && nodes[pos].kind == Tree
    requires pos + 1 <= left.pos && Numbered(nodes, pos + 1, idx, word, left)
    ensures Numbered(nodes, pos, idx, word, Walked(HeadDependency(left.head.token, cat), left.idx, left.pos))
  {
    LeafCountFromTree(nodes, pos, left.pos);
    var q :| pos + 1 <= q < left.pos && nodes[q].kind == Leaf && GroupOf(nodes[q], word).Some?
      && left.head.token == WordToken(Unescape(GroupOf(nodes[q], word).value), idx + LeafCount(nodes[pos + 1..q]) + 1);
    LeafCountFromTree(nodes, pos, q);
  }

  /** A binary node's counter runs through both children; its head is one of theirs. */
  lemma BinaryNumbered(nodes: seq<AutoNode>, pos: nat, idx: int, word: Group, left: Walked, right: Walked, side: Side, cat: Cat)
    requires pos < left.pos <= right.pos <= |nodes| && nodes[pos].kind == Tree
    requires Numbered(nodes, pos + 1, idx, word, left) && Numbered(nodes, left.pos, left.idx, word, right)
    ensures var head := if side == Left then left.head.token else right.head.token;
            Numbered(nodes, pos, idx, word, Walked(HeadDependency(head, cat), right.idx, right.pos))
  {
    LeafCountFromTree(nodes, pos, right.pos);
    LeafCountSplit(nodes, pos + 1, left.pos, right.pos);
    if side == Left {
      BinaryHeadLeft(nodes, pos, idx, word, left, right.pos, cat);
    } else {
      BinaryHeadRight(nodes, pos, idx, word, left, right, cat);
    }
  }

  /** The left child's head leaf lies in the parent's subtree with the same number. */
  lemma BinaryHeadLeft(nodes: seq<AutoNode>, pos: nat, idx: int, word: Group, left: Walked, end: nat, cat: Cat)
    requires pos < left.pos <= end <= |nodes| && nodes[pos].kind == Tree
    requires HeadLeaf(nodes, pos + 1, idx, word, left)
    ensures HeadLeaf(nodes, pos, idx, word, Walked(HeadDependency(left.head.token, cat), left.idx, end))
  {
    var q :| pos + 1 <= q < left.pos && nodes[q].kind == Leaf && GroupOf(nodes[q], word).Some?
      && left.head.token == WordToken(Unescape(GroupOf(nodes[q], word).value), idx + LeafCount(nodes[pos + 1..q]) + 1);
    LeafCountFromTree(nodes, pos, q);
  }

  /** The right child's head leaf lies in the parent's subtree, numbered after the left child's leaves. */
  lemma BinaryHeadRight(nodes: seq<AutoNode>, pos: nat, idx: int, word: Group, left: Walked, right: Walked, cat: Cat)
    requires pos < left.pos <= right.pos <= |nodes| && nodes[pos].kind == Tree
    requires left.idx == idx + LeafCount(nodes[pos + 1..left.pos]) && HeadLeaf(nodes, left.pos, left.idx, word, right)
    ensures HeadLeaf(nodes, pos, idx, word, Walked(HeadDependency(right.head.token, cat), right.idx, right.pos))
  {
    var q :| left.pos <= q < right.pos && nodes[q].kind == Leaf && GroupOf(nodes[q], word).Some?
      && right.head.token == WordToken(Unescape(GroupOf(nodes[q], word).value), left.idx + LeafCount(nodes[left.pos..q]) + 1);
    LeafCountFromTree(nodes, pos, q);
    LeafCountSplit(nodes, pos + 1, left.pos, q);
  }

  /** `_head_autofile` numbers leaves 1, 2, 3, ... left to right and its head is one of them. */
  lemma {:induction false} AutofileNumbering(nodes: seq<AutoNode>, pos: nat, idx: int, f: Fields)
    requires pos <= |nodes| && Autofile(nodes, pos, idx, f, f).Success?
    ensures Numbered(nodes, pos, idx, f.word, Autofile(nodes, pos, idx, f, f).value)
    decreases |nodes| - pos
  {
    var m := nodes[pos];
    var cat := ParseCat(StripConj(m.cat)).value;
    if m.kind == Leaf {
      LeafNumbered(nodes, pos, idx, f.word, cat);
    } else {
      var left := Autofile(nodes, pos + 1, idx, f, f).value;
      AutofileNumbering(nodes, pos + 1, idx, f);
      if m.last == "2" {
        var right := Autofile(nodes, left.pos, left.idx, f, f).value;
        AutofileNumbering(nodes, left.pos, left.idx, f);
        BinaryNumbered(nodes, pos, idx, f.word, left, right, HeadSide(GroupOf(m, f.head)).value, cat);
      } else {
        UnaryNumbered(nodes, pos, idx, f.word, left, cat);
      }
    }
  }

  /** `_head_ls14` numbers leaves 1, 2, 3, ... left to right and its head is one of them. */
  lemma {:induction false} Ls14Numbering(nodes: seq<AutoNode>, pos: nat, idx: int, f: Fields)
    requires pos <= |nodes| && Ls14(nodes, pos, idx, f).Success?
    ensures Numbered(nodes, pos, idx, f.word, Ls14(nodes, pos, idx, f).value)
    decreases |nodes| - pos
  {
    var m := nodes[pos];
    var text := RemoveAll(m.cat, "[X]");
    var cat := ParseCat(text).value;
    if m.kind == Leaf {
      LeafNumbered(nodes, pos, idx, f.word, cat);
    } else {
      var left := Ls14(nodes, pos + 1, idx, f).value;
      Ls14Numbering(nodes, pos + 1, idx, f);
      if m.last == "2" {
        var right := Ls14(nodes, left.pos, left.idx, f).value;
        Ls14Numbering(nodes, left.pos, left.idx, f);
        BinaryNumbered(nodes, pos, idx, f.word, left, right, Ls14Choose(text, left.head.cat, right.head.cat).value, cat);
      } else {
        UnaryNumbered(nodes, pos, idx, f.word, left, cat);
      }
    }
  }

  /** Whichever walker runs, its head is one of the leaves it numbered. */
  lemma WalkNumbered(nodes: seq<AutoNode>, name: string, f: Fields)
    requires Walk(nodes, name, f).Success?
    ensures Numbered(nodes, 0, 0, f.word, Walk(nodes, name, f).value)
  {
    if name == "autofile" {
      AutofileNumbering(nodes, 0, 0, f);
    } else {
      Ls14Numbering(nodes, 0, 0, f);
    }
  }

  /**
   * A head found by `parse_head` is the `k`-th leaf of the tree, numbered
   * `k` counting from 1.
   */
  lemma ParseHeadLeaf(nodes: seq<AutoNode>, name: string, autox: bool)
    requires ParseHead(nodes, name, autox).Success?
    ensures var f := if autox then AutoxFields else AutoFields;
            var h := ParseHead(nodes, name, autox).value;
            exists q :: 0 <= q < |nodes| && nodes[q].kind == Leaf && GroupOf(nodes[q], f.word).Some?
              && h.token == WordToken(Unescape(GroupOf(nodes[q], f.word).value), LeafCount(nodes[..q]) + 1)
    ensures 1 <= ParseHead(nodes, name, autox).value.token.idx <= LeafCount(nodes)
  {
    var f := if autox then AutoxFields else AutoFields;
    ParseHeadWalk(nodes, name, autox, f);
    var w := Walk(nodes, name, f);
    WalkNumbered(nodes, name, f);
    WholeTreeNumbered(nodes, f.word, w.value);
  }

  /** `parse_head` succeeds with the head of a walk that read every record. */
  lemma ParseHeadWalk(nodes: seq<AutoNode>, name: string, autox: bool, f: Fields)
    requires ParseHead(nodes, name, autox).Success? && f == if autox then AutoxFields else AutoFields
    ensures Walk(nodes, name, f).Success? && Walk(nodes, name, f).value.pos == |nodes|
    ensures ParseHead(nodes, name, autox).value == Walk(nodes, name, f).value.head
  {
  }

  /** A walk over the whole record sequence from counter 0 heads at leaf number `k` for the `k`-th leaf. */
  lemma WholeTreeNumbered(nodes: seq<AutoNode>, word: Group, w: Walked)
    requires w.pos == |nodes| && Numbered(nodes, 0, 0, word, w)
    ensures exists q :: 0 <= q < |nodes| && nodes[q].kind == Leaf && GroupOf(nodes[q], word).Some?
              && w.head.token == WordToken(Unescape(GroupOf(nodes[q], word).value), LeafCount(nodes[..q]) + 1)
    ensures 1 <= w.head.token.idx <= LeafCount(nodes)
  {
    var q :| 0 <= q < |nodes| && nodes[q].kind == Leaf && GroupOf(nodes[q], word).Some?
      && w.head.token == WordToken(Unescape(GroupOf(nodes[q], word).value), 0 + LeafCount(nodes[0..q]) + 1);
    assert nodes[..q] == nodes[0..q];
    LeafCountSplit(nodes, 0, q, |nodes|);
    LeafCountFromLeaf(nodes, q);
    assert nodes[0..|nodes|] == nodes;
  }

  lemma LeafCountFromLeaf(ns: seq<AutoNode>, q: nat)
    requires q < |ns| && ns[q].kind == Leaf
    ensures LeafCount(ns[q..|ns|]) >= 1
  {
    assert ns[q..|ns|][0] == ns[q];
  }

  // The LS14 rules.

  /** One punctuation child: the other child is the head. */
  lemma Ls14OnePunctuation(parent: string, catL: Cat, catR: Cat)
    requires !Contains(parent, "conj") && PunctLike(Str(catL)) != PunctLike(Str(catR))
    ensures Ls14Choose(parent, catL, catR) == Success(if PunctLike(Str(catL)) then Right else Left)
  {
  }

  /** Two punctuation children: the one written like the parent, the left one first. */
  lemma Ls14BothPunctuation(parent: string, catL: Cat, catR: Cat)
    requires !Contains(parent, "conj") && PunctLike(Str(catL)) && PunctLike(Str(catR))
    ensures Ls14Choose(parent, catL, catR)
            == if parent == Str(catL) then Success(Left)
               else if parent == Str(catR) then Success(Right)
               else Failure(NoProjectingPunctuation)
  {
  }

  /** A `conj` parent needs two `conj` children, punctuation or not. */
  lemma Ls14ConjParent(parent: string, catL: Cat, catR: Cat)
    requires Contains(parent, "conj") && !(Contains(Str(catL), "conj") && Contains(Str(catR), "conj"))
    ensures Ls14Choose(parent, catL, catR) == Failure(ConjParentNeedsConjChildren)
  {
  }

  /**
   * Without punctuation: two `conj` children need a `conj` parent, a lone
   * left `conj` yields to the right child, a lone right `conj` is an error.
   */
  lemma Ls14ConjChildren(parent: string, catL: Cat, catR: Cat)
    requires !Contains(parent, "conj") && !PunctLike(Str(catL)) && !PunctLike(Str(catR))
    ensures Contains(Str(catL), "conj") && Contains(Str(catR), "conj") ==> Ls14Choose(parent, catL, catR) == Failure(ConjChildrenNeedConjParent)
    ensures Contains(Str(catL), "conj") && !Contains(Str(catR), "conj") ==> Ls14Choose(parent, catL, catR) == Success(Right)
    ensures !Contains(Str(catL), "conj") && Contains(Str(catR), "conj") ==> Ls14Choose(parent, catL, catR) == Failure(LoneRightConj)
  {
  }

  /** A strict subterm is smaller than a category built over it. */
  lemma NotOwnArgument(y: Cat, x: Cat, sl: Slash)
    requires y.Complex?
    ensures y.argument != Complex(sl, x, y) && y.result != Complex(sl, x, y)
  {
    assert Size(y.argument) < Size(y) < Size(Complex(sl, x, y));
  }

  /** Forward application `X/Y Y => X`: the functor heads unless it is `X/X` or `X/(X\\Z)`. */
  lemma ForwardApplication(x: Cat, y: Cat)
    ensures FunctorHead(x, Complex(Fwd, x, y), y, Complex(Fwd, x, y), y)
            == Some(if x == y || (IsBwd(y) && y.result == x) then Right else Left)
  {
  }

  /** Backward application `Y X\\Y => X`: the functor heads unless it is `X\\X` or `X\\(X/Z)`. */
  lemma BackwardApplication(x: Cat, y: Cat)
    ensures FunctorHead(x, y, Complex(Bwd, x, y), y, Complex(Bwd, x, y))
            == Some(if x == y || (IsFwd(y) && y.result == x) then Left else Right)
  {
    if y.Complex? {
      NotOwnArgument(y, x, Bwd);
    }
  }

  /** Forward composition `X/Y Y/Z => X/Z`: the left functor heads unless it is a modifier. */
  lemma ForwardComposition(x: Cat, y: Cat, z: Cat)
    ensures FunctorHead(Complex(Fwd, x, z), Complex(Fwd, x, y), Complex(Fwd, y, z), Complex(Fwd, x, y), Complex(Fwd, y, z))
            == Some(if x == y || (IsBwd(y) && y.result == x) then Right else Left)
  {
  }

  /** Backward composition `Y\\Z X\\Y => X\\Z`: the right functor heads unless it is a modifier. */
  lemma BackwardComposition(x: Cat, y: Cat, z: Cat)
    ensures FunctorHead(Complex(Bwd, x, z), Complex(Bwd, y, z), Complex(Bwd, x, y), Complex(Bwd, y, z), Complex(Bwd, x, y))
            == Some(if x == y || (IsFwd(y) && y.result == x) then Left else Right)
  {
  }

  /** Three atoms match no rule, so such a binary node is malformed. */
  lemma AtomsMatchNoRule(p: string, l: string, r: string)
    ensures FunctorHead(Atom(p), Atom(l), Atom(r), Atom(l), Atom(r)) == None
  {
  }
}

/** The DepCCG field layout, and records that follow a complete tree. */
module HeadsLayout {
  import opened Wrappers
  import opened Text
  import opened CategoryTree
  import opened CategoryTokens
  import opened CategoryParser
  import opened CategoryPrinter
  import opened CategoryRoundTrip
  import opened HeadTokens
  import opened Heads

  /** Every record has a group 4, so exchanging groups 3 and 4 loses nothing. */
  predicate Complete(ns: seq<AutoNode>) {
    forall i :: 0 <= i < |ns| ==> ns[i].fourth.Some?
  }

  lemma GroupsSwapped(n: AutoNode)
    requires n.fourth.Some?
    ensures GroupOf(Swapped(n), Third) == GroupOf(n, Fourth) && GroupOf(Swapped(n), Fourth) == GroupOf(n, Third)
    ensures Swapped(n).kind == n.kind && Swapped(n).cat == n.cat && Swapped(n).last == n.last
  {
  }

  /** Reading every record with the DepCCG layout is reading the exchanged records with the CCGbank layout. */
  lemma {:induction false} AutofileSwap(nodes: seq<AutoNode>, pos: nat, idx: int)
    requires Complete(nodes) && pos <= |nodes|
    ensures Autofile(nodes, pos, idx, AutoxFields, AutoxFields) == Autofile(SwapAll(nodes), pos, idx, AutoFields, AutoFields)
    decreases |nodes| - pos
  {
    if pos < |nodes| {
      if nodes[pos].kind == Tree {
        AutofileSwap(nodes, pos + 1, idx);
        var left := Autofile(nodes, pos + 1, idx, AutoxFields, AutoxFields);
        if left.Success? {
          AutofileSwap(nodes, left.value.pos, left.value.idx);
        }
      }
      AutofileSwapNode(nodes, SwapAll(nodes), pos, idx);
    }
  }

  /** One record read with either layout, given that its subtrees read the same. */
  lemma AutofileSwapNode(nodes: seq<AutoNode>, sw: seq<AutoNode>, pos: nat, idx: int)
    requires pos < |nodes| == |sw| && nodes[pos].fourth.Some? && sw[pos] == Swapped(nodes[pos])
    requires nodes[pos].kind == Tree ==>
      && Autofile(nodes, pos + 1, idx, AutoxFields, AutoxFields) == Autofile(sw, pos + 1, idx, AutoFields, AutoFields)
      && var left := Autofile(nodes, pos + 1, idx, AutoxFields, AutoxFields);
         left.Success? ==> Autofile(nodes, left.value.pos, left.value.idx, AutoxFields, AutoxFields)
                           == Autofile(sw, left.value.pos, left.value.idx, AutoFields, AutoFields)
    ensures Autofile(nodes, pos, idx, AutoxFields, AutoxFields) == Autofile(sw, pos, idx, AutoFields, AutoFields)
  {
    var m := nodes[pos];
    GroupsSwapped(m);
    if m.kind == Leaf {
      SwapLeaf(nodes, sw, pos, idx);
    } else {
      assert GroupOf(sw[pos], AutoFields.head) == GroupOf(m, AutoxFields.head);
    }
  }

  lemma SwapLeaf(nodes: seq<AutoNode>, sw: seq<AutoNode>, pos: nat, idx: int)
    requires pos < |nodes| == |sw| && nodes[pos].kind == Leaf && sw[pos].kind == Leaf && sw[pos].cat == nodes[pos].cat
    requires GroupOf(sw[pos], AutoFields.word) == GroupOf(nodes[pos], AutoxFields.word)
    ensures Autofile(nodes, pos, idx, AutoxFields, AutoxFields) == Autofile(sw, pos, idx, AutoFields, AutoFields)
  {
  }

  /** The same for the LS14 walker. */
  lemma {:induction false} Ls14Swap(nodes: seq<AutoNode>, pos: nat, idx: int)
    requires Complete(nodes) && pos <= |nodes|
    ensures Ls14(nodes, pos, idx, AutoxFields) == Ls14(SwapAll(nodes), pos, idx, AutoFields)
    decreases |nodes| - pos
  {
    if pos < |nodes| {
      GroupsSwapped(nodes[pos]);
      if nodes[pos].kind == Tree {
        Ls14Swap(nodes, pos + 1, idx);
        var left := Ls14(nodes, pos + 1, idx, AutoxFields);
        if left.Success? {
          Ls14Swap(nodes, left.value.pos, left.value.idx);
        }
      }
    }
  }

  /** `autox=True` does nothing but exchange where the head field and the word are read. */
  lemma AutoxSwapsFields(nodes: seq<AutoNode>, name: string)
    requires Complete(nodes)
    ensures ParseHead(nodes, name, true) == ParseHead(SwapAll(nodes), name, false)
  {
    AutofileSwap(nodes, 0, 0);
    Ls14Swap(nodes, 0, 0);
  }

  /** An atom's text parses to the atom. */
  lemma ParseAtom(a: string)
    requires IsAtomText(a)
    ensures ParseCat(a) == Success(Atom(a))
  {
    assert Print(Atom(a), false, false) == [AtomTok(a)];
    assert [AtomTok(a)][1..] == [];
    assert Join([]) == "";
    assert Join([AtomTok(a)]) == TokText(AtomTok(a)) + Join([]);
    assert Str(Atom(a)) == a;
    FromStrStr(Atom(a));
  }

  /** A binary `.autox` tree: head field `0` in group 4 of the root, words in group 3 of the leaves. */
  const AutoxTree := [
    AutoNode(Tree, "S", "fa", Some("0"), "2"),
    AutoNode(Leaf, "NP", "John", Some("NNP"), "NP"),
    AutoNode(Leaf, "VP", "sleeps", Some("VBZ"), "VP")
  ]

  /**
   * The source's `_head_autofile` hands the DepCCG layout to the root only:
   * its recursive calls fall back to the CCGbank layout, so the head of
   * `AutoxTree` gets the tag `NNP` as its word instead of `John`.
   */
  lemma AutoxOnlyAtRoot(t: seq<AutoNode>)
    requires t == AutoxTree
    ensures Autofile(t, 0, 0, AutoxFields, AutoFields).Success?
    ensures Autofile(t, 0, 0, AutoxFields, AutoFields).value.head.token == WordToken("NNP", 1)
    ensures ParseHead(t, "autofile", true) == Success(HeadDependency(WordToken("John", 1), Atom("S")))
  {
    AutoxLeaves(t);
    var john := WordToken("John", 1);
    var nnp := WordToken("NNP", 1);
    AutoxRoot(t, AutoxFields, AutoFields, Walked(HeadDependency(nnp, Atom("NP")), 1, 2), Walked(HeadDependency(WordToken("VBZ", 2), Atom("VP")), 2, 3));
    AutoxRoot(t, AutoxFields, AutoxFields, Walked(HeadDependency(john, Atom("NP")), 1, 2), Walked(HeadDependency(WordToken("sleeps", 2), Atom("VP")), 2, 3));
  }

  /** The root of `AutoxTree` takes its head from the left subtree. */
  lemma AutoxRoot(t: seq<AutoNode>, top: Fields, inner: Fields, left: Walked, right: Walked)
    requires t == AutoxTree && top.head == Fourth
    requires Autofile(t, 1, 0, inner, inner) == Success(left) && left.pos <= |t|
    requires Autofile(t, left.pos, left.idx, inner, inner) == Success(right)
    ensures Autofile(t, 0, 0, top, inner) == Success(Walked(HeadDependency(left.head.token, Atom("S")), right.idx, right.pos))
  {
    RootAtom();
    assert HeadSide(Some("0")) == Success(Left);
  }

  /** The root category of `AutoxTree`. */
  lemma RootAtom()
    ensures ParseCat(StripConj("S")) == Success(Atom("S"))
  {
    ParseAtom("S");
    assert StripConj("S") == "S";
  }

  /** The two leaves of `AutoxTree`, read with either layout. */
  lemma AutoxLeaves(t: seq<AutoNode>)
    requires t == AutoxTree
    ensures Autofile(t, 1, 0, AutoFields, AutoFields) == Success(Walked(HeadDependency(WordToken("NNP", 1), Atom("NP")), 1, 2))
    ensures Autofile(t, 1, 0, AutoxFields, AutoxFields) == Success(Walked(HeadDependency(WordToken("John", 1), Atom("NP")), 1, 2))
    ensures Autofile(t, 2, 1, AutoFields, AutoFields) == Success(Walked(HeadDependency(WordToken("VBZ", 2), Atom("VP")), 2, 3))
    ensures Autofile(t, 2, 1, AutoxFields, AutoxFields) == Success(Walked(HeadDependency(WordToken("sleeps", 2), Atom("VP")), 2, 3))
  {
    PlainAtom("NP");
    PlainAtom("VP");
    assert '\\' !in "NNP" && '\\' !in "John" && '\\' !in "VBZ" && '\\' !in "sleeps";
    AtomLeaf(t, 1, 0, AutoFields, "NP", "NNP");
    AtomLeaf(t, 1, 0, AutoxFields, "NP", "John");
    AtomLeaf(t, 2, 1, AutoFields, "VP", "VBZ");
    AtomLeaf(t, 2, 1, AutoxFields, "VP", "sleeps");
  }

  /** Two capital letters make an atom. */
  lemma PlainAtom(a: string)
    requires |a| == 2 && 'A' <= a[0] <= 'Z' && 'A' <= a[1] <= 'Z'
    ensures IsAtomText(a) && |a| < 6
  {
  }

  /** A leaf record whose category is an atom and whose word holds no backslash. */
  lemma AtomLeaf(nodes: seq<AutoNode>, pos: nat, idx: int, f: Fields, a: string, w: string)
    requires pos < |nodes| && nodes[pos].kind == Leaf && nodes[pos].cat == a && IsAtomText(a) && |a| < 6
    requires GroupOf(nodes[pos], f.word) == Some(w) && '\\' !in w
    ensures Autofile(nodes, pos, idx, f, f) == Success(Walked(HeadDependency(WordToken(w, idx + 1), Atom(a)), idx + 1, pos + 1))
  {
    ParseAtom(a);
    UnescapePlain(w);
  }

  /** Without a backslash there is nothing to unescape. */
  lemma {:induction false} UnescapePlain(w: string)
    requires '\\' !in w
    ensures Unescape(w) == w
    decreases |w|
  {
    if |w| > 0 {
      UnescapePlain(w[1..]);
      assert [w[0]] + w[1..] == w;
    }
  }

  // Records after a complete tree.

  /** Records after a subtree do not change how it is read. */
  lemma {:induction false} AutofileExtended(nodes: seq<AutoNode>, extra: seq<AutoNode>, pos: nat, idx: int, top: Fields, inner: Fields)
    requires pos <= |nodes| && Autofile(nodes, pos, idx, top, inner).Success?
    ensures Autofile(nodes + extra, pos, idx, top, inner) == Autofile(nodes, pos, idx, top, inner)
    decreases |nodes| - pos
  {
    AutofileParts(nodes, pos, idx, top, inner);
    if nodes[pos].kind == Tree {
      AutofileExtended(nodes, extra, pos + 1, idx, inner, inner);
      var left := Autofile(nodes, pos + 1, idx, inner, inner).value;
      if nodes[pos].last == "2" {
        AutofileExtended(nodes, extra, left.pos, left.idx, inner, inner);
      }
    }
    AutofileExtendedNode(nodes, extra, pos, idx, top, inner);
  }

  /** A subtree read without error has its subtrees read without error. */
  lemma AutofileParts(nodes: seq<AutoNode>, pos: nat, idx: int, top: Fields, inner: Fields)
    requires pos <= |nodes| && Autofile(nodes, pos, idx, top, inner).Success?
    ensures pos < |nodes|
    ensures nodes[pos].kind == Tree ==>
      && Autofile(nodes, pos + 1, idx, inner, inner).Success?
      && var left := Autofile(nodes, pos + 1, idx, inner, inner).value;
         nodes[pos].last == "2" ==> Autofile(nodes, left.pos, left.idx, inner, inner).Success?
  {
  }

  /** One record of a subtree read with or without records after it, given that its subtrees read the same. */
  lemma AutofileExtendedNode(nodes: seq<AutoNode>, extra: seq<AutoNode>, pos: nat, idx: int, top: Fields, inner: Fields)
    requires pos <= |nodes| && Autofile(nodes, pos, idx, top, inner).Success?
    requires pos < |nodes| && nodes[pos].kind == Tree ==>
      && Autofile(nodes, pos + 1, idx, inner, inner).Success?
      && Autofile(nodes + extra, pos + 1, idx, inner, inner) == Autofile(nodes, pos + 1, idx, inner, inner)
      && var left := Autofile(nodes, pos + 1, idx, inner, inner).value;
         nodes[pos].last == "2" ==> Autofile(nodes + extra, left.pos, left.idx, inner, inner) == Autofile(nodes, left.pos, left.idx, inner, inner)
    ensures Autofile(nodes + extra, pos, idx, top, inner) == Autofile(nodes, pos, idx, top, inner)
  {
    assert (nodes + extra)[pos] == nodes[pos];
  }

  lemma {:induction false} Ls14Extended(nodes: seq<AutoNode>, extra: seq<AutoNode>, pos: nat, idx: int, f: Fields)
    requires pos <= |nodes| && Ls14(nodes, pos, idx, f).Success?
    ensures Ls14(nodes + extra, pos, idx, f) == Ls14(nodes, pos, idx, f)
    decreases |nodes| - pos
  {
    assert (nodes + extra)[pos] == nodes[pos];
    if nodes[pos].kind == Tree {
      Ls14Extended(nodes, extra, pos + 1, idx, f);
      var left := Ls14(nodes, pos + 1, idx, f).value;
      if nodes[pos].last == "2" {
        Ls14Extended(nodes, extra, left.pos, left.idx, f);
      }
    }
  }

  /** A tree followed by more records is malformed, whatever those records are. */
  lemma ParseHeadTrailing(nodes: seq<AutoNode>, extra: seq<AutoNode>, name: string, autox: bool)
    requires ParseHead(nodes, name, autox).Success? && |extra| > 0
    ensures ParseHead(nodes + extra, name, autox) == Failure(MalformedTree)
  {
    var f := if autox then AutoxFields else AutoFields;
    if name == "autofile" {
      AutofileExtended(nodes, extra, 0, 0, f, f);
    } else {
      Ls14Extended(nodes, extra, 0, 0, f);
    }
  }
}
