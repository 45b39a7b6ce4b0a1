/**
 * Rendering of category trees (`_inorder`, `to_str`, `__str__`) in
 * Steedman or Lambek order, fully parenthesised or left-associative,
 * optionally with polarised leaf indices, and the functorial sequence
 * `func_seq` built from it.
 */
module CategoryPrinter {
  import opened Wrappers
  import opened Text
  import opened CategoryTree
  import opened CategoryTokens

  /** `_inorder`'s pair: the tokens, and one polarised index per leaf in printed order. */
  datatype Inord = Inord(toks: seq<Tok>, idxs: seq<int>)

  /** Parenthesise a token sequence when it stands for a complex category. */
  function Wrap(t: seq<Tok>): seq<Tok> {
    if |t| > 1 then [LParen] + t + [RParen] else t
  }

  function Shift(s: seq<int>, d: int): (r: seq<int>)
    ensures |r| == |s| && forall k :: 0 <= k < |s| ==> r[k] == s[k] + d
  {
    seq(|s|, k requires 0 <= k < |s| => s[k] + d)
  }

  /** The number of atom tokens. */
  function CountAtoms(toks: seq<Tok>): nat {
    if |toks| == 0 then 0
    else (if toks[|toks| - 1].AtomTok? then 1 else 0) + CountAtoms(toks[..|toks| - 1])
  }

  lemma {:induction false} CountAtomsAppend(a: seq<Tok>, b: seq<Tok>)
    ensures CountAtoms(a + b) == CountAtoms(a) + CountAtoms(b)
  {
    if |b| > 0 {
      CountAtomsAppend(a, b[..|b| - 1]);
      assert (a + b)[..|a + b| - 1] == a + b[..|b| - 1];
    } else {
      assert a + b == a;
    }
  }

  /**
   * `_inorder(l_assoc, lambek, positive)`. A complex result is parenthesised
   * unless left-associative output is asked for; a complex argument always is.
   * Polarised indices count the argument's leaves first when the slash is
   * "/" and the polarity positive, or the slash "\" and the polarity negative,
   * and the result's leaves first otherwise; Lambek order swaps the two sides
   * of a backslash in the output.
   */
  function Inorder(c: Cat, lassoc: bool, lambek: bool, positive: bool): (r: Inord)
    ensures |r.idxs| == Len(c)
    ensures |r.toks| == 1 <==> c.Atom?
    ensures c.Atom? ==> r.toks == [AtomTok(c.root)]
    ensures c.Complex? ==> |r.toks| >= 3
  {
    if c.Atom? then Inord([AtomTok(c.root)], [0])
    else
      var R := Inorder(c.result, lassoc, lambek, positive);
      var A := Inorder(c.argument, lassoc, lambek, !positive);
      var rt := if lassoc then R.toks else Wrap(R.toks);
      var at := Wrap(A.toks);
      var ri := if (c.slash == Fwd) == positive then Shift(R.idxs, |A.idxs|) else R.idxs;
      var ai := if (c.slash == Fwd) == positive then A.idxs else Shift(A.idxs, |R.idxs|);
      if lambek && c.slash == Bwd then Inord(at + [SlashTok(Bwd)] + rt, ai + ri)
      else Inord(rt + [SlashTok(c.slash)] + at, ri + ai)
  }

  lemma WrapAtoms(t: seq<Tok>)
    ensures CountAtoms(Wrap(t)) == CountAtoms(t)
  {
    if |t| > 1 {
      CountAtomsAppend([LParen] + t, [RParen]);
      CountAtomsAppend([LParen], t);
    }
  }

  /** One polarised index per leaf token. */
  lemma {:induction false} InorderAtomCount(c: Cat, lassoc: bool, lambek: bool, positive: bool)
    ensures CountAtoms(Inorder(c, lassoc, lambek, positive).toks) == Len(c)
  {
    if c.Complex? {
      InorderAtomCount(c.result, lassoc, lambek, positive);
      InorderAtomCount(c.argument, lassoc, lambek, !positive);
      var R := Inorder(c.result, lassoc, lambek, positive).toks;
      var A := Inorder(c.argument, lassoc, lambek, !positive).toks;
      WrapAtoms(R);
      WrapAtoms(A);
      var rt := if lassoc then R else Wrap(R);
      var at := Wrap(A);
      if lambek && c.slash == Bwd {
        CountAtomsAppend(at + [SlashTok(Bwd)], rt);
        CountAtomsAppend(at, [SlashTok(Bwd)]);
      } else {
        CountAtomsAppend(rt + [SlashTok(c.slash)], at);
        CountAtomsAppend(rt, [SlashTok(c.slash)]);
      }
    }
  }

  /**
   * The tokens of `to_str(l_assoc=..., lambek=...)`: a complex result is
   * parenthesised unless left-associative, a complex argument always, and a
   * Lambek backslash puts the argument first.
   */
  function Print(c: Cat, lassoc: bool, lambek: bool): (r: seq<Tok>)
    ensures |r| == 1 <==> c.Atom?
    ensures c.Atom? ==> r == [AtomTok(c.root)]
    ensures c.Complex? ==> |r| >= 3
  {
    if c.Atom? then [AtomTok(c.root)]
    else
      var rt := if lassoc then Print(c.result, lassoc, lambek) else Wrap(Print(c.result, lassoc, lambek));
      var at := Wrap(Print(c.argument, lassoc, lambek));
      if lambek && c.slash == Bwd then at + [SlashTok(Bwd)] + rt else rt + [SlashTok(c.slash)] + at
  }

  /** `_inorder`'s tokens are the rendering, whatever the polarity. */
  lemma {:induction false} InorderToks(c: Cat, lassoc: bool, lambek: bool, positive: bool)
    ensures Inorder(c, lassoc, lambek, positive).toks == Print(c, lassoc, lambek)
  {
    if c.Complex? {
      InorderToks(c.result, lassoc, lambek, positive);
      InorderToks(c.argument, lassoc, lambek, !positive);
    }
  }

  /** `to_str(l_assoc=..., lambek=...)` without polarised indices. */
  function ToStr(c: Cat, lassoc: bool, lambek: bool): string {
    Join(Print(c, lassoc, lambek))
  }

  /** `__str__`: fully parenthesised, Steedman order. */
  function Str(c: Cat): string {
    ToStr(c, false, false)
  }

  /** Every atom token is the text of a well-formed atom, and atoms are never adjacent. */
  lemma {:induction false} PrintSeparated(c: Cat, lassoc: bool, lambek: bool)
    requires WellFormed(c)
    ensures Separated(Print(c, lassoc, lambek))
  {
    if c.Complex? {
      PrintSeparated(c.result, lassoc, lambek);
      PrintSeparated(c.argument, lassoc, lambek);
      var R := Print(c.result, lassoc, lambek);
      var A := Print(c.argument, lassoc, lambek);
      WrapSeparated(R);
      WrapSeparated(A);
      var rt := if lassoc then R else Wrap(R);
      var at := Wrap(A);
      if lambek && c.slash == Bwd {
        JoinAround(at, SlashTok(Bwd), rt);
      } else {
        JoinAround(rt, SlashTok(c.slash), at);
      }
    }
  }

  lemma WrapSeparated(t: seq<Tok>)
    requires Separated(t)
    ensures Separated(Wrap(t))
  {
    if |t| > 1 {
      var w := Wrap(t);
      assert forall k :: 1 <= k < |w| - 1 ==> w[k] == t[k - 1];
    }
  }

  lemma JoinAround(x: seq<Tok>, mid: Tok, y: seq<Tok>)
    requires Separated(x) && Separated(y) && !mid.AtomTok?
    ensures Separated(x + [mid] + y)
  {
    var w := x + [mid] + y;
    assert forall k :: 0 <= k < |x| ==> w[k] == x[k];
    assert forall k :: |x| < k < |w| ==> w[k] == y[k - |x| - 1];
  }

  /** Values in `[lo, hi)`, pairwise distinct. */
  predicate DistinctIn(s: seq<int>, lo: int, hi: int) {
    && (forall k :: 0 <= k < |s| ==> lo <= s[k] < hi)
    && (forall j, k :: 0 <= j < k < |s| ==> s[j] != s[k])
  }

  /** A permutation of `0 .. n-1`. */
  predicate IsPermutation(s: seq<int>, n: nat) {
    |s| == n && DistinctIn(s, 0, n)
  }

  lemma DistinctAppend(x: seq<int>, y: seq<int>, lo: int, mid: int, hi: int)
    requires lo <= mid <= hi
    requires DistinctIn(x, lo, mid) && DistinctIn(y, mid, hi)
    ensures DistinctIn(x + y, lo, hi) && DistinctIn(y + x, lo, hi)
  {
    var xy, yx := x + y, y + x;
    forall k | 0 <= k < |xy|
      ensures lo <= xy[k] < hi && lo <= yx[k] < hi
    {
      if k < |x| { assert xy[k] == x[k]; } else { assert xy[k] == y[k - |x|]; }
      if k < |y| { assert yx[k] == y[k]; } else { assert yx[k] == x[k - |y|]; }
    }
    forall j, k | 0 <= j < k < |xy|
      ensures xy[j] != xy[k] && yx[j] != yx[k]
    {
      if k < |x| || j >= |x| {
      } else {
        assert xy[j] == x[j] && xy[k] == y[k - |x|];
      }
      if k < |y| || j >= |y| {
      } else {
        assert yx[j] == y[j] && yx[k] == x[k - |y|];
      }
    }
  }

  /**
   * The polarised indices of `_inorder` are a permutation of
   * `0 .. len(self)-1`, whatever the notation and polarity.
   */
  lemma {:induction false} InorderIndicesPermutation(c: Cat, lassoc: bool, lambek: bool, positive: bool)
    ensures IsPermutation(Inorder(c, lassoc, lambek, positive).idxs, Len(c))
  {
    if c.Complex? {
      var R := Inorder(c.result, lassoc, lambek, positive);
      var A := Inorder(c.argument, lassoc, lambek, !positive);
      InorderIndicesPermutation(c.result, lassoc, lambek, positive);
      InorderIndicesPermutation(c.argument, lassoc, lambek, !positive);
      var nr, na := Len(c.result), Len(c.argument);
      if (c.slash == Fwd) == positive {
        DistinctAppend(A.idxs, Shift(R.idxs, na), 0, na, na + nr);
      } else {
        DistinctAppend(R.idxs, Shift(A.idxs, nr), 0, nr, nr + na);
      }
    }
  }

  /** The texts of the atom tokens, in order. */
  function AtomTexts(toks: seq<Tok>): (r: seq<string>)
    ensures |r| == CountAtoms(toks)
  {
    if |toks| == 0 then []
    else AtomTexts(toks[..|toks| - 1]) + (if toks[|toks| - 1].AtomTok? then [toks[|toks| - 1].text] else [])
  }

  lemma {:induction false} AtomTextsAppend(a: seq<Tok>, b: seq<Tok>)
    ensures AtomTexts(a + b) == AtomTexts(a) + AtomTexts(b)
  {
    if |b| > 0 {
      AtomTextsAppend(a, b[..|b| - 1]);
      assert (a + b)[..|a + b| - 1] == a + b[..|b| - 1];
    } else {
      assert a + b == a;
    }
  }

  /** Each leaf's polarity, in printed order: an argument flips the polarity. */
  function LeafPolarities(c: Cat, lambek: bool, positive: bool): (r: seq<bool>)
    ensures |r| == Len(c)
  {
    if c.Atom? then [positive]
    else
      var R := LeafPolarities(c.result, lambek, positive);
      var A := LeafPolarities(c.argument, lambek, !positive);
      if lambek && c.slash == Bwd then A + R else R + A
  }

  /** Positions of the atom tokens (the `leaf_idxs` of `to_str`). */
  function LeafPositions(toks: seq<Tok>): (r: seq<nat>)
    ensures |r| == CountAtoms(toks)
    ensures forall k :: 0 <= k < |r| ==> r[k] < |toks| && toks[r[k]].AtomTok?
    ensures forall j, k :: 0 <= j < k < |r| ==> r[j] < r[k]
  {
    if |toks| == 0 then []
    else
      var n := |toks| - 1;
      var front := LeafPositions(toks[..n]);
      if toks[n].AtomTok? then front + [n] else front
  }

  /** The number of atom tokens strictly before position `p`. */
  function Rank(toks: seq<Tok>, p: nat): nat
    requires p <= |toks|
  {
    CountAtoms(toks[..p])
  }

  /** Each atom token's position is listed at its rank. */
  lemma {:induction false} LeafPositionsAtRank(toks: seq<Tok>, p: nat)
    requires p < |toks| && toks[p].AtomTok?
    ensures Rank(toks, p) < |LeafPositions(toks)| && LeafPositions(toks)[Rank(toks, p)] == p
  {
    var n := |toks| - 1;
    var front := toks[..n];
    if p < n {
      LeafPositionsAtRank(front, p);
      assert front[..p] == toks[..p];
    } else {
      assert toks[..n] == toks[..p];
    }
  }

  /** The leaf token at `LeafPositions(toks)[k]` has rank `k`. */
  lemma {:induction false} RankOfLeafPosition(toks: seq<Tok>, k: nat)
    requires k < |LeafPositions(toks)|
    ensures Rank(toks, LeafPositions(toks)[k]) == k
  {
    var n := |toks| - 1;
    var front := toks[..n];
    var lp := LeafPositions(toks);
    if k < |LeafPositions(front)| {
      RankOfLeafPosition(front, k);
      assert front[..lp[k]] == toks[..lp[k]];
    } else {
      assert toks[..lp[k]] == front;
    }
  }

  /** The polarised annotation of a leaf: `atom_index`. */
  function Annotation(text: string, index: int): string {
    text + "_" + IntToString(index)
  }

  /**
   * What `to_str(pol_start=...)` puts in each token slot: a leaf of rank k
   * becomes `atom_{pol_start + idxs[k]}`, every other token is unchanged
   * (`idxs` has one entry per leaf, see `InorderAtomCount`).
   */
  function Annotated(toks: seq<Tok>, idxs: seq<int>, polStart: int): (r: seq<string>)
    ensures |r| == |toks|
  {
    seq(|toks|, p requires 0 <= p < |toks| =>
      if toks[p].AtomTok? && Rank(toks, p) < |idxs| then
        Annotation(toks[p].text, polStart + idxs[Rank(toks, p)])
      else TokText(toks[p]))
  }

  lemma RankBound(toks: seq<Tok>, p: nat)
    requires p < |toks| && toks[p].AtomTok?
    ensures Rank(toks, p) < CountAtoms(toks)
  {
    LeafPositionsAtRank(toks, p);
  }

  function TokTexts(toks: seq<Tok>): (r: seq<string>)
    ensures |r| == |toks| && forall p :: 0 <= p < |toks| ==> r[p] == TokText(toks[p])
  {
    seq(|toks|, p requires 0 <= p < |toks| => TokText(toks[p]))
  }

  /** The token texts `to_str(pol_start=polStart, ...)` concatenates. */
  function PolarisedTexts(c: Cat, polStart: int, positive: bool, lassoc: bool, lambek: bool): (r: seq<string>)
    ensures |r| == |Inorder(c, lassoc, lambek, positive).toks|
  {
    var pr := Inorder(c, lassoc, lambek, positive);
    InorderAtomCount(c, lassoc, lambek, positive);
    Annotated(pr.toks, pr.idxs, polStart)
  }

  /** The first `k` leaves (by rank) carry their annotation, all other slots their token text. */
  predicate PartlyAnnotated(parts: seq<string>, toks: seq<Tok>, idxs: seq<int>, polStart: int, k: nat)
    requires |idxs| == CountAtoms(toks)
  {
    |parts| == |toks|
    && forall p :: 0 <= p < |toks| ==>
         parts[p] == if toks[p].AtomTok? && Rank(toks, p) < k
                     then Annotated(toks, idxs, polStart)[p] else TokText(toks[p])
  }

  lemma AnnotateStep(parts: seq<string>, toks: seq<Tok>, idxs: seq<int>, polStart: int, k: nat)
    requires |idxs| == CountAtoms(toks) && k < |idxs|
    requires PartlyAnnotated(parts, toks, idxs, polStart, k)
    ensures var at := LeafPositions(toks)[k];
            PartlyAnnotated(parts[at := Annotation(TokText(toks[at]), polStart + idxs[k])],
                            toks, idxs, polStart, k + 1)
  {
    var at := LeafPositions(toks)[k];
    RankOfLeafPosition(toks, k);
    forall p | 0 <= p < |toks| && toks[p].AtomTok? && Rank(toks, p) == k
      ensures p == at
    {
      LeafPositionsAtRank(toks, p);
    }
  }

  lemma AnnotateDone(parts: seq<string>, toks: seq<Tok>, idxs: seq<int>, polStart: int)
    requires |idxs| == CountAtoms(toks)
    requires PartlyAnnotated(parts, toks, idxs, polStart, |idxs|)
    ensures parts == Annotated(toks, idxs, polStart)
  {
    forall p | 0 <= p < |toks|
      ensures parts[p] == Annotated(toks, idxs, polStart)[p]
    {
      if toks[p].AtomTok? {
        RankBound(toks, p);
      }
    }
  }

  /**
   * `to_str(pol_start=polStart, positive=..., l_assoc=..., lambek=...)`:
   * every leaf of the rendering is suffixed with its polarised index offset
   * by `polStart`, and the next free index `polStart + len(self)` is returned.
   */
  method ToStrPolarised(c: Cat, polStart: int, positive: bool, lassoc: bool, lambek: bool)
    returns (s: string, next: int)
    ensures next == polStart + Len(c)
    ensures s == Concat(PolarisedTexts(c, polStart, positive, lassoc, lambek))
  {
    var pr := Inorder(c, lassoc, lambek, positive);
    InorderAtomCount(c, lassoc, lambek, positive);
    var parts := AnnotateLeaves(pr.toks, pr.idxs, polStart);
    s := Concat(parts);
    next := polStart + |pr.idxs|;
  }

  /** The loop of `to_str` over `leaf_idxs`: the k-th leaf slot gets the k-th polarised index. */
  method AnnotateLeaves(toks: seq<Tok>, idxs: seq<int>, polStart: int) returns (parts: seq<string>)
    requires |idxs| == CountAtoms(toks)
    ensures parts == Annotated(toks, idxs, polStart)
  {
    parts := TokTexts(toks);
    var leafIdxs := LeafPositions(toks);
    for k := 0 to |leafIdxs|
      invariant PartlyAnnotated(parts, toks, idxs, polStart, k)
    {
      var at := leafIdxs[k];
      AnnotateStep(parts, toks, idxs, polStart, k);
      parts := parts[at := Annotation(TokText(toks[at]), polStart + idxs[k])];
    }
    AnnotateDone(parts, toks, idxs, polStart);
  }

  /** `_inorder`'s indices used by `to_str(pol_start=...)` cover `pol_start .. pol_start+len-1` once each. */
  lemma PolarisedIndicesCover(c: Cat, polStart: int, positive: bool, lassoc: bool, lambek: bool)
    ensures var idxs := Inorder(c, lassoc, lambek, positive).idxs;
            DistinctIn(Shift(idxs, polStart), polStart, polStart + Len(c)) && |idxs| == Len(c)
  {
    InorderIndicesPermutation(c, lassoc, lambek, positive);
  }

  /** The parenthesised form used inside `func_seq`. */
  function Parenthesised(c: Cat): string {
    if c.Atom? then Str(c) else "(" + Str(c) + ")"
  }

  /**
   * `func_seq` (Bhargava and Penn, 2023): the target atom, then for each
   * argument from the innermost outward its slash and its rendering,
   * parenthesised when complex.
   */
  function FuncSeq(c: Cat): (r: seq<string>)
    ensures |r| == Arity(c) + 1
    ensures r[0] == TargetAtom(c)
  {
    if c.Atom? then [c.root]
    else FuncSeq(c.result) + [SlashText(c.slash) + Parenthesised(c.argument)]
  }

  /** Element k >= 1 of `func_seq` is the arity-k subcategory's slash followed by `get_arg(k)`. */
  lemma {:induction false} FuncSeqAt(c: Cat, k: nat)
    requires 1 <= k <= Arity(c)
    ensures var sub := ResultPow(c, Arity(c) - k);
            GetArg(c, k).Success?
            && FuncSeq(c)[k] == SlashText(sub.slash) + Parenthesised(GetArg(c, k).value)
  {
    if k < Arity(c) {
      FuncSeqAt(c.result, k);
      assert ResultPow(c, Arity(c) - k) == ResultPow(c.result, Arity(c.result) - k);
    }
  }

  // Printing is injective: the tokens of a rendering determine the tree.

  /** What may follow a level's tokens: nothing, or a closing parenthesis. */
  predicate Stop(r: seq<Tok>) {
    |r| == 0 || r[0] == RParen
  }

  /** What may follow an operand: nothing, a closing parenthesis or a slash. */
  predicate OperandStop(r: seq<Tok>) {
    |r| == 0 || r[0] == RParen || r[0].SlashTok?
  }

  /** The printed result is shorter than the printed category. */
  lemma PrintShorter(c: Cat, lassoc: bool, lambek: bool)
    requires c.Complex?
    ensures |Print(c.result, lassoc, lambek)| < |Print(c, lassoc, lambek)|
    ensures |Print(c.argument, lassoc, lambek)| < |Print(c, lassoc, lambek)|
  {
  }

  lemma ConsEq(x: Tok, y: Tok, a: seq<Tok>, b: seq<Tok>)
    requires [x] + a == [y] + b
    ensures x == y && a == b
  {
    assert ([x] + a)[0] == x && ([y] + b)[0] == y;
    assert ([x] + a)[1..] == a && ([y] + b)[1..] == b;
  }

  lemma WrapAtomVsParen(a: string, ps: seq<Tok>, r1: seq<Tok>, r2: seq<Tok>)
    requires |ps| > 1
    ensures [AtomTok(a)] + r1 != Wrap(ps) + r2
  {
    assert (Wrap(ps) + r2)[0] == LParen;
  }

  /** Past the opening parenthesis of a wrapped sequence. */
  lemma WrapTail(p: seq<Tok>, r: seq<Tok>)
    requires |p| > 1
    ensures (Wrap(p) + r)[1..] == p + ([RParen] + r)
  {
    assert Wrap(p) + r == [LParen] + (p + ([RParen] + r));
  }

  lemma WrapParens(pt: seq<Tok>, ps: seq<Tok>, r1: seq<Tok>, r2: seq<Tok>)
    requires |pt| > 1 && |ps| > 1
    requires Wrap(pt) + r1 == Wrap(ps) + r2
    ensures pt + ([RParen] + r1) == ps + ([RParen] + r2)
  {
    WrapTail(pt, r1);
    WrapTail(ps, r2);
  }

  /** An operand's rendering (parenthesised when complex) followed by an operand stop is unique. */
  lemma {:induction false} WrapPrefix(t: Cat, s: Cat, lassoc: bool, lambek: bool, r1: seq<Tok>, r2: seq<Tok>)
    requires !(lassoc && lambek)
    requires Wrap(Print(t, lassoc, lambek)) + r1 == Wrap(Print(s, lassoc, lambek)) + r2
    requires OperandStop(r1) && OperandStop(r2)
    ensures t == s && r1 == r2
    decreases |Print(t, lassoc, lambek)|, 2
  {
    var pt, ps := Print(t, lassoc, lambek), Print(s, lassoc, lambek);
    if t.Atom? && s.Atom? {
      ConsEq(AtomTok(t.root), AtomTok(s.root), r1, r2);
    } else if t.Atom? {
      WrapAtomVsParen(t.root, ps, r1, r2);
    } else if s.Atom? {
      WrapAtomVsParen(s.root, pt, r2, r1);
    } else {
      WrapParens(pt, ps, r1, r2);
      PrintPrefix(t, s, lassoc, lambek, [RParen] + r1, [RParen] + r2);
      ConsEq(RParen, RParen, r1, r2);
    }
  }

  /** A rendering followed by a level stop is unique. */
  lemma {:induction false} PrintPrefix(t: Cat, s: Cat, lassoc: bool, lambek: bool, r1: seq<Tok>, r2: seq<Tok>)
    requires !(lassoc && lambek)
    requires Print(t, lassoc, lambek) + r1 == Print(s, lassoc, lambek) + r2
    requires Stop(r1) && Stop(r2)
    ensures t == s && r1 == r2
    decreases |Print(t, lassoc, lambek)|, 1
  {
    if lassoc {
      LassocSpinePrefix(t, s, r1, r2);
      SegPrefix(Spine(t), Spine(s), r1, r2);
      SpineDetermines(t, s);
    } else {
      FullPrefix(t, s, lambek, r1, r2);
    }
  }

  lemma ConsAppendEq(x: Tok, y: Tok, a: seq<Tok>, b: seq<Tok>, r1: seq<Tok>, r2: seq<Tok>)
    requires [x] + a + r1 == [y] + b + r2
    ensures x == y && a + r1 == b + r2
  {
    assert [x] + a + r1 == [x] + (a + r1);
    assert [y] + b + r2 == [y] + (b + r2);
    ConsEq(x, y, a + r1, b + r2);
  }

  lemma LassocSpinePrefix(t: Cat, s: Cat, r1: seq<Tok>, r2: seq<Tok>)
    requires Print(t, true, false) + r1 == Print(s, true, false) + r2
    ensures TargetAtom(t) == TargetAtom(s)
    ensures SegToks(Spine(t)) + r1 == SegToks(Spine(s)) + r2
    ensures |SegToks(Spine(t))| < |Print(t, true, false)|
  {
    LassocSpine(t);
    LassocSpine(s);
    ConsAppendEq(AtomTok(TargetAtom(t)), AtomTok(TargetAtom(s)), SegToks(Spine(t)), SegToks(Spine(s)), r1, r2);
  }

  /** The two operands of a complex category's full rendering, in printed order. */
  function First(c: Cat, lambek: bool): Cat
    requires c.Complex?
  {
    if lambek && c.slash == Bwd then c.argument else c.result
  }

  function Second(c: Cat, lambek: bool): Cat
    requires c.Complex?
  {
    if lambek && c.slash == Bwd then c.result else c.argument
  }

  /** A fully parenthesised complex rendering: first operand, slash, second operand. */
  lemma FullShape(c: Cat, lassoc: bool, lambek: bool)
    requires !lassoc && c.Complex?
    ensures Print(c, lassoc, lambek)
            == Wrap(Print(First(c, lambek), lassoc, lambek)) + [SlashTok(c.slash)] + Wrap(Print(Second(c, lambek), lassoc, lambek))
  {
  }

  lemma Assoc3(a: seq<Tok>, b: seq<Tok>, c: seq<Tok>, r: seq<Tok>)
    ensures a + b + c + r == a + (b + (c + r))
  {
  }

  lemma FullSplit(t: Cat, lambek: bool, r: seq<Tok>)
    requires t.Complex?
    ensures Print(t, false, lambek) + r
            == Wrap(Print(First(t, lambek), false, lambek))
               + ([SlashTok(t.slash)] + (Wrap(Print(Second(t, lambek), false, lambek)) + r))
    ensures |Print(First(t, lambek), false, lambek)| < |Print(t, false, lambek)|
  {
    FullShape(t, false, lambek);
    Assoc3(Wrap(Print(First(t, lambek), false, lambek)), [SlashTok(t.slash)], Wrap(Print(Second(t, lambek), false, lambek)), r);
  }

  lemma {:induction false} FullPrefix(t: Cat, s: Cat, lambek: bool, r1: seq<Tok>, r2: seq<Tok>)
    requires Print(t, false, lambek) + r1 == Print(s, false, lambek) + r2
    requires Stop(r1) && Stop(r2)
    ensures t == s && r1 == r2
    decreases |Print(t, false, lambek)|, 0
  {
    if t.Atom? && s.Atom? {
      ConsEq(AtomTok(t.root), AtomTok(s.root), r1, r2);
    } else if t.Atom? {
      FullAtomVsComplex(t, s, lambek, r1, r2);
    } else if s.Atom? {
      FullAtomVsComplex(s, t, lambek, r2, r1);
    } else {
      FullSplit(t, lambek, r1);
      FullSplit(s, lambek, r2);
      var yt, ys := Wrap(Print(Second(t, lambek), false, lambek)), Wrap(Print(Second(s, lambek), false, lambek));
      WrapPrefix(First(t, lambek), First(s, lambek), false, lambek,
                 [SlashTok(t.slash)] + (yt + r1), [SlashTok(s.slash)] + (ys + r2));
      ConsEq(SlashTok(t.slash), SlashTok(s.slash), yt + r1, ys + r2);
      WrapPrefix(Second(t, lambek), Second(s, lambek), false, lambek, r1, r2);
    }
  }

  lemma FullAtomVsComplex(t: Cat, s: Cat, lambek: bool, r1: seq<Tok>, r2: seq<Tok>)
    requires t.Atom? && s.Complex?
    requires Stop(r1)
    ensures Print(t, false, lambek) + r1 != Print(s, false, lambek) + r2
  {
    var swap := lambek && s.slash == Bwd;
    var f, g := if swap then s.argument else s.result, if swap then s.result else s.argument;
    var ls := Print(s, false, lambek) + r2;
    assert ls == Wrap(Print(f, false, lambek)) + [SlashTok(s.slash)] + Wrap(Print(g, false, lambek)) + r2;
    if f.Atom? {
      assert ls[1] == SlashTok(s.slash);
    } else {
      assert ls[0] == LParen;
    }
  }

  /** The arguments along the result spine, innermost first. */
  function Spine(c: Cat): (sp: seq<(Slash, Cat)>)
    ensures |sp| == Arity(c)
  {
    if c.Atom? then [] else Spine(c.result) + [(c.slash, c.argument)]
  }

  /** One spine segment rendered left-associatively: the slash, then the operand. */
  function Seg(x: (Slash, Cat)): (r: seq<Tok>)
    ensures |r| > |Print(x.1, true, false)| && r[0] == SlashTok(x.0)
  {
    [SlashTok(x.0)] + Wrap(Print(x.1, true, false))
  }

  /** The left-associative rendering of a spine, segment by segment. */
  function SegToks(sp: seq<(Slash, Cat)>): (r: seq<Tok>)
    ensures |sp| > 0 ==> |r| > 0 && r[0].SlashTok?
  {
    if |sp| == 0 then [] else Seg(sp[0]) + SegToks(sp[1..])
  }

  lemma {:induction false} SegToksSnoc(sp: seq<(Slash, Cat)>, x: (Slash, Cat))
    ensures SegToks(sp + [x]) == SegToks(sp) + Seg(x)
  {
    if |sp| == 0 {
      assert (sp + [x])[1..] == [];
      assert sp + [x] == [x];
    } else {
      assert (sp + [x])[0] == sp[0];
      assert (sp + [x])[1..] == sp[1..] + [x];
      SegToksSnoc(sp[1..], x);
    }
  }

  lemma {:induction false} LassocSpine(c: Cat)
    ensures Print(c, true, false) == [AtomTok(TargetAtom(c))] + SegToks(Spine(c))
  {
    if c.Complex? {
      LassocSpine(c.result);
      SegToksSnoc(Spine(c.result), (c.slash, c.argument));
    }
  }

  lemma {:induction false} SpineDetermines(t: Cat, s: Cat)
    requires TargetAtom(t) == TargetAtom(s) && Spine(t) == Spine(s)
    ensures t == s
  {
    if t.Complex? && s.Complex? {
      var st, ss := Spine(t), Spine(s);
      assert st[..|st| - 1] == Spine(t.result);
      assert ss[..|ss| - 1] == Spine(s.result);
      SpineDetermines(t.result, s.result);
    }
  }

  lemma SegStartsWithSlash(sp: seq<(Slash, Cat)>, r: seq<Tok>)
    ensures |sp| > 0 ==> |SegToks(sp) + r| > 0 && (SegToks(sp) + r)[0].SlashTok?
  {
    if |sp| > 0 {
      assert (SegToks(sp) + r)[0] == SegToks(sp)[0];
    }
  }

  lemma SegFrontEq(sp: seq<(Slash, Cat)>, r: seq<Tok>)
    requires |sp| > 0
    ensures SegToks(sp) + r == [SlashTok(sp[0].0)] + (Wrap(Print(sp[0].1, true, false)) + (SegToks(sp[1..]) + r))
  {
    var w, tail := Wrap(Print(sp[0].1, true, false)), SegToks(sp[1..]);
    assert SegToks(sp) == Seg(sp[0]) + tail;
    assert Seg(sp[0]) == [SlashTok(sp[0].0)] + w;
    AssocTok([SlashTok(sp[0].0)], w, tail, r);
  }

  lemma AssocTok(a: seq<Tok>, b: seq<Tok>, c: seq<Tok>, d: seq<Tok>)
    ensures (a + b) + c + d == a + (b + (c + d))
  {
  }

  lemma SegFront(sp: seq<(Slash, Cat)>, r: seq<Tok>)
    requires |sp| > 0 && Stop(r)
    ensures SegToks(sp) + r == [SlashTok(sp[0].0)] + (Wrap(Print(sp[0].1, true, false)) + (SegToks(sp[1..]) + r))
    ensures OperandStop(SegToks(sp[1..]) + r)
    ensures |Print(sp[0].1, true, false)| < |SegToks(sp)|
    ensures |SegToks(sp[1..])| < |SegToks(sp)|
  {
    SegFrontEq(sp, r);
    var tail := SegToks(sp[1..]);
    if |tail| == 0 {
      assert tail + r == r;
    } else {
      assert (tail + r)[0] == tail[0];
    }
  }

  /** An empty spine leaves only the stop, which cannot begin a non-empty spine's slash. */
  lemma SegEmpty(sp1: seq<(Slash, Cat)>, sp2: seq<(Slash, Cat)>, r1: seq<Tok>, r2: seq<Tok>)
    requires |sp1| == 0 || |sp2| == 0
    requires SegToks(sp1) + r1 == SegToks(sp2) + r2
    requires Stop(r1) && Stop(r2)
    ensures sp1 == sp2 && r1 == r2
  {
    assert |sp1| == 0 ==> SegToks(sp1) + r1 == r1;
    assert |sp2| == 0 ==> SegToks(sp2) + r2 == r2;
    SegStartsWithSlash(sp1, r1);
    SegStartsWithSlash(sp2, r2);
  }

  /** Two non-empty spines with equal renderings: the first slashes agree and the operands start alike. */
  lemma SegHeads(sp1: seq<(Slash, Cat)>, sp2: seq<(Slash, Cat)>, r1: seq<Tok>, r2: seq<Tok>)
    requires |sp1| > 0 && |sp2| > 0
    requires SegToks(sp1) + r1 == SegToks(sp2) + r2
    requires Stop(r1) && Stop(r2)
    ensures sp1[0].0 == sp2[0].0
    ensures Wrap(Print(sp1[0].1, true, false)) + (SegToks(sp1[1..]) + r1)
            == Wrap(Print(sp2[0].1, true, false)) + (SegToks(sp2[1..]) + r2)
    ensures OperandStop(SegToks(sp1[1..]) + r1) && OperandStop(SegToks(sp2[1..]) + r2)
    ensures |Print(sp1[0].1, true, false)| < |SegToks(sp1)| && |SegToks(sp1[1..])| < |SegToks(sp1)|
  {
    SegFront(sp1, r1);
    SegFront(sp2, r2);
    ConsEq(SlashTok(sp1[0].0), SlashTok(sp2[0].0),
           Wrap(Print(sp1[0].1, true, false)) + (SegToks(sp1[1..]) + r1),
           Wrap(Print(sp2[0].1, true, false)) + (SegToks(sp2[1..]) + r2));
  }

  lemma HeadTail(sp: seq<(Slash, Cat)>)
    requires |sp| > 0
    ensures sp == [sp[0]] + sp[1..]
  {
  }

  lemma {:induction false} SegPrefix(sp1: seq<(Slash, Cat)>, sp2: seq<(Slash, Cat)>, r1: seq<Tok>, r2: seq<Tok>)
    requires SegToks(sp1) + r1 == SegToks(sp2) + r2
    requires Stop(r1) && Stop(r2)
    ensures sp1 == sp2 && r1 == r2
    decreases |SegToks(sp1)|, 3
  {
    if |sp1| == 0 || |sp2| == 0 {
      SegEmpty(sp1, sp2, r1, r2);
    } else {
      SegHeads(sp1, sp2, r1, r2);
      WrapPrefix(sp1[0].1, sp2[0].1, true, false, SegToks(sp1[1..]) + r1, SegToks(sp2[1..]) + r2);
      SegPrefix(sp1[1..], sp2[1..], r1, r2);
      HeadTail(sp1);
      HeadTail(sp2);
    }
  }

  /**
   * Printing is injective on well-formed trees: in full parenthesisation
   * (either order), and left-associatively in Steedman order.
   */
  lemma ToStrInjective(t: Cat, s: Cat, lassoc: bool, lambek: bool)
    requires !(lassoc && lambek)
    requires WellFormed(t) && WellFormed(s)
    requires ToStr(t, lassoc, lambek) == ToStr(s, lassoc, lambek)
    ensures t == s
  {
    PrintSeparated(t, lassoc, lambek);
    PrintSeparated(s, lassoc, lambek);
    TokenizeJoin(Print(t, lassoc, lambek));
    TokenizeJoin(Print(s, lassoc, lambek));
    assert Print(t, lassoc, lambek) + [] == Print(s, lassoc, lambek) + [];
    PrintPrefix(t, s, lassoc, lambek, [], []);
  }
}
