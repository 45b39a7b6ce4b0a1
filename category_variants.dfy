/**
 * What `from_str` does with inputs that are not a plain rendering: the
 * malformed-category errors and where they are raised, the lenient mode's
 * recoveries, redundant parentheses, the Lambek backslash, the two
 * notations of one tree, and the intern table's cache answering for any
 * notation.
 */
module CategoryVariants {
  import opened Wrappers
  import opened Text
  import opened CategoryTree
  import opened CategoryTokens
  import opened CategoryPrinter
  import opened CategoryParser
  import opened CategoryRoundTrip

  /** A slash character. */
  predicate IsSlashChar(ch: char) {
    ch == '/' || ch == '\\'
  }

  /** Interning the atom `a` under its own text would pass the sanity check. */
  predicate InternsAtom(table: Table, a: string, lambek: bool) {
    (a, lambek) !in table || table[(a, lambek)] == Atom(a)
  }

  /** The empty string is not a category. */
  lemma FromStrEmpty(cfg: Config, table: Table)
    requires ("", cfg.lambek) !in table
    ensures FromStr("", cfg, table) == Parsed(Failure(EmptyCategory), table)
  {
  }

  /** A slash with nothing before it: the left operand is missing. */
  lemma FromStrLeadingSlash(s: string, cfg: Config, table: Table)
    requires |s| > 0 && IsSlashChar(s[0]) && (s, cfg.lambek) !in table
    ensures FromStr(s, cfg, table) == Parsed(Failure(MissingLeft), table)
  {
    var toks := Tokenize(s);
    assert toks[0].SlashTok?;
    assert Level(toks, 0, false, cfg, table) == Loop(toks, 0, 0, false, cfg, Start, table);
  }

  /**
   * A `)` before anything else: an extraneous closing parenthesis when
   * strict; when lenient the level stops there with nothing read.
   */
  lemma FromStrLeadingClose(s: string, cfg: Config, table: Table)
    requires |s| > 0 && s[0] == ')' && (s, cfg.lambek) !in table
    ensures FromStr(s, cfg, table) == Parsed(Failure(if cfg.strict then ExtraneousClose else EmptyCategory), table)
  {
    var toks := Tokenize(s);
    assert toks[0] == RParen;
    assert Level(toks, 0, false, cfg, table) == Loop(toks, 0, 0, false, cfg, Start, table);
  }

  /**
   * An atom and a slash at the start of a level: the atom is interned under
   * its own text and becomes `left`.
   */
  lemma AtomSlash(toks: seq<Tok>, inParen: bool, cfg: Config, table: Table, a: string, sl: Slash)
    requires |toks| >= 2 && toks[0] == AtomTok(a) && toks[1] == SlashTok(sl)
    requires IsAtomText(a) && InternsAtom(table, a, cfg.lambek)
    ensures Level(toks, 0, inParen, cfg, table)
            == Loop(toks, 0, 2, inParen, cfg, State(SlashRoot(sl), Some(Atom(a)), None), table[(a, cfg.lambek) := Atom(a)])
  {
    assert toks[0..1] == [AtomTok(a)];
    JoinAtom(a);
    assert SliceText(toks, 0, 1) == a;
    assert Level(toks, 0, inParen, cfg, table) == Loop(toks, 0, 0, inParen, cfg, Start, table);
    assert Loop(toks, 0, 0, inParen, cfg, Start, table) == Place(toks, 0, 0, inParen, cfg, Start, table, AtomRoot(a));
    assert Place(toks, 0, 0, inParen, cfg, Start, table, AtomRoot(a))
           == Loop(toks, 0, 1, inParen, cfg, State(AtomRoot(a), None, None), table);
  }

  lemma JoinAtom(a: string)
    ensures Join([AtomTok(a)]) == a
  {
    assert [AtomTok(a)][1..] == [];
    assert a + "" == a;
  }

  /** The tokens of an atom followed by a string that starts with a delimiter. */
  lemma TokenizeAtomThen(a: string, s: string)
    requires IsAtomText(a) && |s| > 0 && IsDelimiter(s[0])
    ensures Tokenize(a + s) == [AtomTok(a)] + Tokenize(s)
    ensures var toks := Tokenize(a + s);
            |toks| >= 2 && toks[0] == AtomTok(a) && toks[1] == DelimTok(s[0])
  {
    assert NoDelimiters(a);
    TokenizeAtomPrefix(a, s);
  }

  /**
   * An atom and a slash, then the end: the right operand is missing. The
   * atom stays interned although the parse fails.
   */
  lemma FromStrTrailingSlash(a: string, ch: char, cfg: Config, table: Table)
    requires IsAtomText(a) && IsSlashChar(ch) && InternsAtom(table, a, cfg.lambek)
    requires (a + [ch], cfg.lambek) !in table
    ensures FromStr(a + [ch], cfg, table) == Parsed(Failure(MissingRight), table[(a, cfg.lambek) := Atom(a)])
  {
    TokenizeAtomThen(a, [ch]);
    var toks := Tokenize(a + [ch]);
    AtomSlash(toks, false, cfg, table, a, DelimTok(ch).sl);
  }

  /** Two slashes in a row after an atom, whatever follows and in either notation. */
  lemma FromStrConsecutiveSlashes(a: string, s: string, cfg: Config, table: Table)
    requires IsAtomText(a) && |s| >= 2 && IsSlashChar(s[0]) && IsSlashChar(s[1])
    requires InternsAtom(table, a, cfg.lambek) && (a + s, cfg.lambek) !in table
    ensures FromStr(a + s, cfg, table) == Parsed(Failure(ConsecutiveSlashes), table[(a, cfg.lambek) := Atom(a)])
  {
    TokenizeAtomThen(a, s);
    var toks := Tokenize(a + s);
    assert Tokenize(s) == [DelimTok(s[0])] + Tokenize(s[1..]);
    assert toks[2] == DelimTok(s[1]);
    AtomSlash(toks, false, cfg, table, a, DelimTok(s[0]).sl);
  }

  /** A sequence lies at the start of itself followed by anything. */
  lemma AtFront(w: seq<Tok>, r: seq<Tok>)
    ensures At(w + r, 0, w)
  {
    AtSlice(w + r, 0, w);
    assert (w + r)[0..|w|] == w;
  }

  /** The tokens of a rendering followed by a string that starts with a delimiter. */
  lemma TokenizeRenderingThen(c: Cat, s: string, lassoc: bool, lambek: bool)
    requires WellFormed(c) && (|s| == 0 || IsDelimiter(s[0]))
    ensures Tokenize(ToStr(c, lassoc, lambek) + s) == Print(c, lassoc, lambek) + Tokenize(s)
    ensures At(Print(c, lassoc, lambek) + Tokenize(s), 0, Print(c, lassoc, lambek))
  {
    PrintSeparated(c, lassoc, lambek);
    TokenizePrefix(Print(c, lassoc, lambek), s);
    AtFront(Print(c, lassoc, lambek), Tokenize(s));
  }

  /**
   * After a complete `left slash right` at a level, in full
   * parenthesisation, any token but `)` is extraneous; only a lenient
   * nested level would give it back.
   */
  lemma AfterRight(c: Cat, toks: seq<Tok>, idx: nat, e: nat, inParen: bool, cfg: Config, table: Table)
    requires !cfg.lassoc && (!inParen || cfg.strict) && c.Complex?
    requires idx < e < |toks| && toks[e] != RParen
    ensures Loop(toks, idx, e, inParen, cfg, BodyState(c, cfg.lambek), table) == Outcome(Failure(ExtraneousAfterRight), table)
  {
  }

  /** A complex fully parenthesised rendering followed by anything but `)` is rejected. */
  lemma FullRenderingThen(c: Cat, toks: seq<Tok>, idx: nat, e: nat, inParen: bool, cfg: Config, table: Table)
    returns (table': Table)
    requires Supported(cfg) && !cfg.lassoc && WellFormed(c) && c.Complex? && Consistent(table, cfg)
    requires !inParen || cfg.strict
    requires At(toks, idx, Print(c, cfg.lassoc, cfg.lambek)) && e == idx + |Print(c, cfg.lassoc, cfg.lambek)|
    requires e < |toks| && toks[e] != RParen
    ensures Level(toks, idx, inParen, cfg, table) == Outcome(Failure(ExtraneousAfterRight), table')
  {
    table' := FullBody(c, toks, idx, e, inParen, cfg, table);
    AfterRight(c, toks, idx, e, inParen, cfg, table');
  }

  /**
   * `from_str` of a complex full rendering followed by a slash or `(`
   * raises "extraneous stuff after right node", strict or not: "A/B/C" is
   * not a fully parenthesised category.
   */
  lemma FromStrFullThen(c: Cat, s: string, cfg: Config, table: Table)
    requires Supported(cfg) && !cfg.lassoc && WellFormed(c) && c.Complex? && Consistent(table, cfg)
    requires |s| > 0 && IsDelimiter(s[0]) && s[0] != ')'
    requires (ToStr(c, cfg.lassoc, cfg.lambek) + s, cfg.lambek) !in table
    ensures FromStr(ToStr(c, cfg.lassoc, cfg.lambek) + s, cfg, table).res == Failure(ExtraneousAfterRight)
  {
    TokenizeRenderingThen(c, s, cfg.lassoc, cfg.lambek);
    var p := Print(c, cfg.lassoc, cfg.lambek);
    assert (p + Tokenize(s))[|p|] == DelimTok(s[0]);
    var t := FullRenderingThen(c, p + Tokenize(s), 0, |p|, false, cfg, table);
  }

  /** What follows a rendering closes the level: a stray `)` at the top, strict or lenient. */
  lemma FromStrStrayClose(c: Cat, cfg: Config, table: Table)
    requires Supported(cfg) && WellFormed(c) && Consistent(table, cfg)
    requires (ToStr(c, cfg.lassoc, cfg.lambek) + ")", cfg.lambek) !in table
    ensures FromStr(ToStr(c, cfg.lassoc, cfg.lambek) + ")", cfg, table).res
            == if cfg.strict then Failure(ExtraneousClose) else Success(c)
  {
    TokenizeRenderingThen(c, ")", cfg.lassoc, cfg.lambek);
    var p := Print(c, cfg.lassoc, cfg.lambek);
    assert Tokenize(")") == [RParen];
    var toks := p + [RParen];
    assert toks[|p|] == RParen;
    LevelRoundTrip(c, toks, 0, |p|, false, cfg, table);
  }

  /** `[x] + w` holds `w` from index 1. */
  lemma AtBehind(x: Tok, w: seq<Tok>)
    ensures At([x] + w, 1, w)
  {
    AtSlice([x] + w, 1, w);
    assert ([x] + w)[1..1 + |w|] == w;
  }

  /** The tokens of `"(" + s`. */
  lemma TokenizeOpen(c: Cat, lassoc: bool, lambek: bool)
    requires WellFormed(c)
    ensures Tokenize("(" + ToStr(c, lassoc, lambek)) == [LParen] + Print(c, lassoc, lambek)
  {
    PrintSeparated(c, lassoc, lambek);
    TokenizeJoin(Print(c, lassoc, lambek));
    TokenizeDelim('(', ToStr(c, lassoc, lambek));
  }

  /** A `(` whose nested level fails makes the level fail with the same error. */
  lemma OpenFails(toks: seq<Tok>, idx: nat, inParen: bool, cfg: Config, table: Table)
    requires idx < |toks| && toks[idx] == LParen
    requires Level(toks, idx + 1, true, cfg, table).res.Failure?
    ensures Level(toks, idx, inParen, cfg, table)
            == Outcome(Failure(Level(toks, idx + 1, true, cfg, table).res.error), Level(toks, idx + 1, true, cfg, table).table)
  {
    assert Level(toks, idx, inParen, cfg, table) == Loop(toks, idx, idx, inParen, cfg, Start, table);
  }

  /** A `(` whose nested level returns `x` at `j`: the level goes on with `x` as its operand. */
  lemma OpenPlaced(toks: seq<Tok>, idx: nat, inParen: bool, cfg: Config, table: Table, x: Cat, j: int)
    requires idx < |toks| && toks[idx] == LParen
    requires Level(toks, idx + 1, true, cfg, table).res == Success((x, j))
    ensures idx <= j
    ensures Level(toks, idx, inParen, cfg, table)
            == Place(toks, idx, j, inParen, cfg, Start, Level(toks, idx + 1, true, cfg, table).table, TreeRoot(x))
  {
    assert Level(toks, idx, inParen, cfg, table) == Loop(toks, idx, idx, inParen, cfg, Start, table);
  }

  /** An unclosed `(` before a rendering, when strict. */
  lemma FromStrUnclosed(c: Cat, cfg: Config, table: Table)
    requires Supported(cfg) && WellFormed(c) && Consistent(table, cfg) && cfg.strict
    requires ("(" + ToStr(c, cfg.lassoc, cfg.lambek), cfg.lambek) !in table
    ensures FromStr("(" + ToStr(c, cfg.lassoc, cfg.lambek), cfg, table).res == Failure(UnclosedParen)
  {
    TokenizeOpen(c, cfg.lassoc, cfg.lambek);
    AtBehind(LParen, Print(c, cfg.lassoc, cfg.lambek));
    UnclosedLevel(c, [LParen] + Print(c, cfg.lassoc, cfg.lambek), |Print(c, cfg.lassoc, cfg.lambek)| + 1, cfg, table);
  }

  lemma UnclosedLevel(c: Cat, toks: seq<Tok>, e: nat, cfg: Config, table: Table)
    requires Supported(cfg) && WellFormed(c) && Consistent(table, cfg) && cfg.strict
    requires |toks| > 0 && toks[0] == LParen && At(toks, 1, Print(c, cfg.lassoc, cfg.lambek))
    requires e == |toks| && e == 1 + |Print(c, cfg.lassoc, cfg.lambek)|
    ensures Level(toks, 0, false, cfg, table).res == Failure(UnclosedParen)
  {
    LevelRoundTrip(c, toks, 1, e, true, cfg, table);
    OpenFails(toks, 0, false, cfg, table);
  }

  /** `[LParen] + p + [RParen]`: the tokens of an explicitly parenthesised rendering. */
  function Parens(p: seq<Tok>): (r: seq<Tok>)
    ensures |r| == |p| + 2 && r[0] == LParen && r[|r| - 1] == RParen
  {
    [LParen] + p + [RParen]
  }

  lemma JoinParens(p: seq<Tok>)
    ensures Join(Parens(p)) == "(" + Join(p) + ")"
  {
    JoinAppend([LParen] + p, [RParen]);
    JoinAppend([LParen], p);
    assert Join([LParen]) == "(" && Join([RParen]) == ")";
  }

  /** `s[1:-1]` of `"(" + m + ")"` is `m`. */
  lemma InnerParens(m: string)
    ensures Inner("(" + m + ")") == m
  {
    assert ("(" + m + ")")[1..|m| + 1] == m;
  }

  /** The tokens of `"(" + s + ")"` for a rendering `s`, followed by a delimited rest. */
  lemma TokenizeParens(c: Cat, lassoc: bool, lambek: bool, r: string)
    requires WellFormed(c) && (|r| == 0 || IsDelimiter(r[0]))
    ensures Tokenize("(" + ToStr(c, lassoc, lambek) + ")" + r) == Parens(Print(c, lassoc, lambek)) + Tokenize(r)
  {
    var m := ToStr(c, lassoc, lambek);
    var p := Print(c, lassoc, lambek);
    TokenizeRenderingThen(c, ")" + r, lassoc, lambek);
    TokenizeDelim(')', r);
    TokenizeDelim('(', m + (")" + r));
    ParensText(m, r);
    ParensToks(p, Tokenize(r));
  }

  lemma ParensText(m: string, r: string)
    ensures "(" + m + ")" + r == ['('] + (m + ([')'] + r))
  {
  }

  lemma ParensToks(p: seq<Tok>, t: seq<Tok>)
    ensures [LParen] + (p + ([RParen] + t)) == Parens(p) + t
  {
  }

  /** A parenthesised token sequence holds its inner tokens at 1, and its text is the inner text in parentheses. */
  lemma ParensWhole(toks: seq<Tok>, p: seq<Tok>)
    requires toks == Parens(p)
    ensures At(toks, 1, p) && SliceText(toks, 0, |toks|) == "(" + Join(p) + ")"
    ensures |toks| == |p| + 2 && toks[0] == LParen && Boundary(toks, |p| + 1)
  {
    AtWhole(toks);
    ParensPieces(toks, 0, p);
    ParensSlice(toks, 0, p, |toks|);
  }

  /** Where the pieces of an explicitly parenthesised rendering lie. */
  lemma ParensPieces(toks: seq<Tok>, k: nat, p: seq<Tok>)
    requires At(toks, k, Parens(p))
    ensures k < |toks| && toks[k] == LParen
    ensures At(toks, k + 1, p) && k + 1 + |p| < |toks| && toks[k + 1 + |p|] == RParen
  {
    AtSplit3(toks, k, [LParen], p, [RParen]);
    AtHead(toks, k, [LParen]);
    AtHead(toks, k + 1 + |p|, [RParen]);
  }

  /** The text of an explicitly parenthesised rendering. */
  lemma ParensSlice(toks: seq<Tok>, k: nat, p: seq<Tok>, e: nat)
    requires At(toks, k, Parens(p)) && e == k + |p| + 2
    ensures SliceText(toks, k, e) == "(" + Join(p) + ")"
  {
    JoinParens(p);
    AtText(toks, k, Parens(p));
  }

  /**
   * Redundant parentheses around a whole rendering are stripped: `(NP)`
   * reads as `NP` and `((S\NP)/NP)` as `(S\NP)/NP`. Left-associative
   * notation refuses any parenthesised first operand, so it refuses these.
   */
  lemma FromStrRedundantParens(c: Cat, cfg: Config, table: Table)
    requires Supported(cfg) && WellFormed(c) && Consistent(table, cfg)
    requires ("(" + ToStr(c, cfg.lassoc, cfg.lambek) + ")", cfg.lambek) !in table
    ensures FromStr("(" + ToStr(c, cfg.lassoc, cfg.lambek) + ")", cfg, table).res
            == if cfg.lassoc then Failure(ParenInLeftAssoc) else Success(c)
  {
    TokensOfParens(c, cfg.lassoc, cfg.lambek);
    RedundantLevel(c, Parens(Print(c, cfg.lassoc, cfg.lambek)), cfg, table);
  }

  /** The tokens of `"(" + s + ")"` for a rendering `s`. */
  lemma TokensOfParens(c: Cat, lassoc: bool, lambek: bool)
    requires WellFormed(c)
    ensures Tokenize("(" + ToStr(c, lassoc, lambek) + ")") == Parens(Print(c, lassoc, lambek))
  {
    var s := ToStr(c, lassoc, lambek);
    TokenizeParens(c, lassoc, lambek, "");
    assert "(" + s + ")" + "" == "(" + s + ")";
    assert Parens(Print(c, lassoc, lambek)) + Tokenize("") == Parens(Print(c, lassoc, lambek));
  }

  lemma RedundantLevel(c: Cat, toks: seq<Tok>, cfg: Config, table: Table)
    requires Supported(cfg) && WellFormed(c) && Consistent(table, cfg)
    requires toks == Parens(Print(c, cfg.lassoc, cfg.lambek))
    ensures Level(toks, 0, false, cfg, table).res == if cfg.lassoc then Failure(ParenInLeftAssoc) else Success((c, |toks|))
  {
    var p := Print(c, cfg.lassoc, cfg.lambek);
    ParensWhole(toks, p);
    var e := |p| + 1;
    LevelRoundTrip(c, toks, 1, e, true, cfg, table);
    var o := Level(toks, 1, true, cfg, table);
    assert o.res == Success((c, e));
    OpenPlaced(toks, 0, false, cfg, table, c, e);
    PlacedWhole(toks, cfg, o.table, c, ToStr(c, cfg.lassoc, cfg.lambek));
  }

  /** A tree read from inside parentheses spanning all the tokens, placed first at the outer level. */
  lemma PlacedWhole(toks: seq<Tok>, cfg: Config, table: Table, x: Cat, inner: string)
    requires |toks| > 0 && SliceText(toks, 0, |toks|) == "(" + inner + ")"
    requires (inner, cfg.lambek) in table && table[(inner, cfg.lambek)] == x
    ensures Place(toks, 0, |toks| - 1, false, cfg, Start, table, TreeRoot(x)).res
            == if cfg.lassoc then Failure(ParenInLeftAssoc) else Success((x, |toks|))
  {
    PlaceParenFirst(toks, |toks| - 1, cfg, table, x);
    if !cfg.lassoc {
      InnerParens(inner);
      FinishParenthesised(toks, cfg, table, x, inner);
    }
  }

  /** A parenthesised operand first at a level: refused left-associatively, otherwise it becomes `root`. */
  lemma PlaceParenFirst(toks: seq<Tok>, i: nat, cfg: Config, table: Table, x: Cat)
    ensures Place(toks, 0, i, false, cfg, Start, table, TreeRoot(x))
            == if cfg.lassoc then Outcome(Failure(ParenInLeftAssoc), table)
               else Loop(toks, 0, i + 1, false, cfg, OperandState(x).(root := TreeRoot(x)), table)
  {
  }

  /** At the end, a level holding only a parenthesised tree returns it when the table holds it under the inner text. */
  lemma FinishParenthesised(toks: seq<Tok>, cfg: Config, table: Table, x: Cat, inner: string)
    requires |toks| > 0 && Inner(SliceText(toks, 0, |toks|)) == inner
    requires (inner, cfg.lambek) in table && table[(inner, cfg.lambek)] == x
    ensures Loop(toks, 0, |toks|, false, cfg, State(TreeRoot(x), None, None), table).res == Success((x, |toks|))
  {
    var st := State(TreeRoot(x), None, None);
    LoopAtEnd(toks, 0, cfg, st, table);
    FinishTree(toks, cfg, table, x, SliceText(toks, 0, |toks|), inner);
  }

  /** The code after the loop returns a parenthesised tree that the table holds under the inner text. */
  lemma FinishTree(toks: seq<Tok>, cfg: Config, table: Table, x: Cat, text: string, inner: string)
    requires text == SliceText(toks, 0, |toks|) && Inner(text) == inner
    requires (inner, cfg.lambek) in table && table[(inner, cfg.lambek)] == x
    ensures Finish(toks, 0, |toks|, cfg, State(TreeRoot(x), None, None), table).res == Success((x, |toks|))
  {
  }

  /** Outside parentheses, the loop at the end of the tokens goes straight to the code after it. */
  lemma LoopAtEnd(toks: seq<Tok>, idx: nat, cfg: Config, st: State, table: Table)
    requires idx <= |toks| && Coherent(st) && (st.left.Some? ==> idx < |toks|)
    ensures Loop(toks, idx, |toks|, false, cfg, st, table) == Finish(toks, idx, |toks|, cfg, st, table)
  {
  }
}
