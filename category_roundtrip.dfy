/**
 * Parsing a rendering gives the tree back: `from_str(t.to_str(...)) == t`
 * in full parenthesisation (Steedman or Lambek order) and left-associatively
 * in Steedman order, exactly when the intern table is consistent with that
 * notation: no rendering is cached with a different tree (the empty table,
 * for instance, and the tables parses of other texts leave). The same
 * lemmas describe what happens when a rendering is followed by a stray `)`
 * or is left unclosed.
 */
module CategoryRoundTrip {
  import opened Wrappers
  import opened Text
  import opened CategoryTree
  import opened CategoryTokens
  import opened CategoryPrinter
  import opened CategoryParser

  /** A notation the round trip covers: left-associative output is only read back in Steedman order. */
  predicate Supported(cfg: Config) {
    !(cfg.lassoc && cfg.lambek)
  }

  /**
   * The table is consistent with the notation: wherever it holds an entry
   * under the rendering of a well-formed tree, for this `lambek` flag, that
   * entry is the tree. Keys that render no tree in this notation (`(A)/B`,
   * or `A/B/C` in full parenthesisation) may hold anything.
   */
  ghost predicate Consistent(table: Table, cfg: Config) {
    forall c :: Keeps(table, cfg, c)
  }

  /** The entry under the rendering of `c`, if there is one, is `c`. */
  predicate Keeps(table: Table, cfg: Config, c: Cat) {
    WellFormed(c) && (ToStr(c, cfg.lassoc, cfg.lambek), cfg.lambek) in table ==>
      table[(ToStr(c, cfg.lassoc, cfg.lambek), cfg.lambek)] == c
  }

  /** The empty table is consistent with every notation. */
  lemma EmptyConsistent(cfg: Config)
    ensures Consistent(map[], cfg)
  {
  }

  /** Interning a tree under its own rendering passes the sanity check and keeps the table consistent. */
  lemma InternConsistent(table: Table, cfg: Config, v: Cat)
    requires Supported(cfg) && Consistent(table, cfg) && WellFormed(v)
    ensures Intern(table, ToStr(v, cfg.lassoc, cfg.lambek), cfg.lambek, v)
            == Success(table[(ToStr(v, cfg.lassoc, cfg.lambek), cfg.lambek) := v])
    ensures Consistent(table[(ToStr(v, cfg.lassoc, cfg.lambek), cfg.lambek) := v], cfg)
  {
    var key := (ToStr(v, cfg.lassoc, cfg.lambek), cfg.lambek);
    var table' := table[key := v];
    assert Keeps(table, cfg, v);
    forall c
      ensures Keeps(table', cfg, c)
    {
      assert Keeps(table, cfg, c);
      if ToStr(c, cfg.lassoc, cfg.lambek) == key.0 && WellFormed(c) {
        ToStrInjective(c, v, cfg.lassoc, cfg.lambek);
      }
    }
  }

  /**
   * Any entry may join a consistent table when a fresh parse of its key in
   * this notation fails or gives the entry: if the key renders a tree, that
   * parse gives the tree.
   */
  lemma InternHarmless(table: Table, cfg: Config, s: string, x: Cat)
    requires Supported(cfg) && Consistent(table, cfg)
    requires FromStr(s, cfg, map[]).res.Failure? || FromStr(s, cfg, map[]).res == Success(x)
    ensures Consistent(table[(s, cfg.lambek) := x], cfg)
  {
    var table' := table[(s, cfg.lambek) := x];
    forall c
      ensures Keeps(table', cfg, c)
    {
      assert Keeps(table, cfg, c);
      if ToStr(c, cfg.lassoc, cfg.lambek) == s && WellFormed(c) {
        EmptyConsistent(cfg);
        FromStrToStr(c, cfg, map[]);
      }
    }
  }

  /** The loop state after reading a whole rendering at one level. */
  function BodyState(c: Cat, lambek: bool): (st: State)
    ensures Coherent(st)
  {
    if c.Atom? then State(AtomRoot(c.root), None, None)
    else State(SlashRoot(c.slash), Some(First(c, lambek)), Some(Second(c, lambek)))
  }

  /** The loop state after reading one parenthesised or atomic first operand. */
  function OperandState(x: Cat): (st: State)
    ensures Coherent(st)
  {
    State(if x.Atom? then AtomRoot(x.root) else TreeRoot(x), None, None)
  }

  /** A level may stop here: at the end of the tokens or at a `)`. */
  predicate Boundary(toks: seq<Tok>, e: nat) {
    e == |toks| || (e < |toks| && toks[e] == RParen)
  }

  /**
   * What a level returns once it has read the rendering of `c` and stands
   * at a boundary: `c`, unless the strict checks object to a `)` outside
   * parentheses or to the end inside them.
   */
  function Expected(toks: seq<Tok>, e: nat, inParen: bool, strict: bool, c: Cat): Result<(Cat, int), ParseError> {
    if e < |toks| then
      if !inParen && strict then Failure(ExtraneousClose) else Success((c, e))
    else
      if inParen && strict then Failure(UnclosedParen) else Success((c, e))
  }

  /** The tokens from `idx` on begin with `w`, token by token. */
  predicate At(toks: seq<Tok>, idx: nat, w: seq<Tok>)
    decreases |w|
  {
    if |w| == 0 then idx <= |toks| else idx < |toks| && toks[idx] == w[0] && At(toks, idx + 1, w[1..])
  }

  /** `At` is the slice `toks[idx..idx + |w|]` being `w`. */
  lemma {:induction false} AtSlice(toks: seq<Tok>, idx: nat, w: seq<Tok>)
    ensures At(toks, idx, w) <==> idx + |w| <= |toks| && toks[idx..idx + |w|] == w
    decreases |w|
  {
    if |w| > 0 {
      AtSlice(toks, idx + 1, w[1..]);
      if idx + |w| <= |toks| {
        var sl := toks[idx..idx + |w|];
        assert sl[0] == toks[idx] && sl[1..] == toks[idx + 1..idx + 1 + |w[1..]|];
        assert sl == [sl[0]] + sl[1..] && w == [w[0]] + w[1..];
        assert sl == w <==> sl[0] == w[0] && sl[1..] == w[1..];
      }
    }
  }

  /** An atom renders as its own text. */
  lemma AtomText(a: string, lassoc: bool, lambek: bool)
    ensures ToStr(Atom(a), lassoc, lambek) == a
  {
    assert [AtomTok(a)][1..] == [];
    assert Join([AtomTok(a)]) == a + "";
    assert a + "" == a;
  }

  /** Two pieces in the tokens: the second lies where the first ends. */
  lemma AtSplit(toks: seq<Tok>, idx: nat, a: seq<Tok>, b: seq<Tok>)
    requires At(toks, idx, a + b)
    ensures At(toks, idx, a) && At(toks, idx + |a|, b)
  {
    AtSlice(toks, idx, a + b);
    AtSlice(toks, idx, a);
    AtSlice(toks, idx + |a|, b);
    assert toks[idx..idx + |a|] == (a + b)[..|a|];
    assert toks[idx + |a|..idx + |a| + |b|] == (a + b)[|a|..];
  }

  /** Three pieces in the tokens: each lies where the previous one ends. */
  lemma AtSplit3(toks: seq<Tok>, idx: nat, a: seq<Tok>, b: seq<Tok>, c: seq<Tok>)
    requires At(toks, idx, a + b + c)
    ensures At(toks, idx, a) && At(toks, idx + |a|, b) && At(toks, idx + |a| + |b|, c)
  {
    assert a + b + c == a + (b + c);
    AtSplit(toks, idx, a, b + c);
    AtSplit(toks, idx + |a|, b, c);
  }

  lemma AtHead(toks: seq<Tok>, idx: nat, w: seq<Tok>)
    requires At(toks, idx, w) && |w| > 0
    ensures idx < |toks| && toks[idx] == w[0]
  {
  }

  lemma AtText(toks: seq<Tok>, idx: nat, w: seq<Tok>)
    requires At(toks, idx, w)
    ensures SliceText(toks, idx, idx + |w|) == Join(w)
  {
    AtSlice(toks, idx, w);
  }

  /** One step: an atom token opens a level. */
  lemma StepFirstAtom(toks: seq<Tok>, idx: nat, inParen: bool, cfg: Config, table: Table)
    requires idx < |toks| && toks[idx].AtomTok?
    ensures Loop(toks, idx, idx, inParen, cfg, Start, table)
            == Loop(toks, idx, idx + 1, inParen, cfg, State(AtomRoot(toks[idx].text), None, None), table)
  {
  }

  /** One step: a parenthesised operand opens a level (full parenthesisation only). */
  lemma StepFirstParen(toks: seq<Tok>, idx: nat, e: int, inParen: bool, cfg: Config, table: Table, x: Cat)
    requires idx < |toks| && toks[idx] == LParen && !cfg.lassoc
    requires Level(toks, idx + 1, true, cfg, table).res == Success((x, e - 1))
    ensures Loop(toks, idx, idx, inParen, cfg, Start, table)
            == Loop(toks, idx, e, inParen, cfg, State(TreeRoot(x), None, None), Level(toks, idx + 1, true, cfg, table).table)
  {
  }

  /** One step: an atom token after the slash becomes `right`, interned under its own text. */
  lemma StepSecondAtom(toks: seq<Tok>, idx: nat, k: nat, inParen: bool, cfg: Config, st: State, table: Table)
    requires st.root.SlashRoot? && st.left.Some? && st.right.None? && idx < k < |toks|
    requires toks[k].AtomTok? && IsAtomText(toks[k].text)
    requires Intern(table, toks[k].text, cfg.lambek, Atom(toks[k].text)).Success?
    ensures Loop(toks, idx, k, inParen, cfg, st, table)
            == Loop(toks, idx, k + 1, inParen, cfg, st.(right := Some(Atom(toks[k].text))),
                    Intern(table, toks[k].text, cfg.lambek, Atom(toks[k].text)).value)
  {
  }

  /** One step: a parenthesised operand after the slash becomes `right`. */
  lemma StepSecondParen(toks: seq<Tok>, idx: nat, k: nat, e: int, inParen: bool, cfg: Config, st: State, table: Table, y: Cat)
    requires st.root.SlashRoot? && st.left.Some? && st.right.None? && idx < k < |toks|
    requires toks[k] == LParen
    requires Level(toks, k + 1, true, cfg, table).res == Success((y, e - 1))
    ensures Loop(toks, idx, k, inParen, cfg, st, table)
            == Loop(toks, idx, e, inParen, cfg, st.(right := Some(y)), Level(toks, k + 1, true, cfg, table).table)
  {
  }

  /**
   * The outcome of a level that has read the rendering of `c` and stands at
   * the boundary `e`: `c` (or the strict-mode error for that boundary), a
   * table that stays consistent, holding `c` under its rendering.
   */
  ghost predicate Reads(o: Outcome, toks: seq<Tok>, e: nat, inParen: bool, cfg: Config, c: Cat) {
    && o.res == Expected(toks, e, inParen, cfg.strict, c)
    && Consistent(o.table, cfg)
    && (o.res.Success? ==> (ToStr(c, cfg.lassoc, cfg.lambek), cfg.lambek) in o.table
                           && o.table[(ToStr(c, cfg.lassoc, cfg.lambek), cfg.lambek)] == c)
  }

  /** One level reads the rendering of `c`, ending at `e`, and stops at the boundary there. */
  lemma {:induction false} LevelRoundTrip(c: Cat, toks: seq<Tok>, idx: nat, e: nat, inParen: bool, cfg: Config, table: Table)
    requires Supported(cfg) && WellFormed(c) && Consistent(table, cfg)
    requires At(toks, idx, Print(c, cfg.lassoc, cfg.lambek)) && e == idx + |Print(c, cfg.lassoc, cfg.lambek)|
    requires Boundary(toks, e)
    ensures Reads(Level(toks, idx, inParen, cfg, table), toks, e, inParen, cfg, c)
    decreases c, 2
  {
    RenderingText(c, toks, idx, e, cfg);
    var t1;
    if cfg.lassoc {
      t1 := LassocBody(c, toks, idx, e, inParen, cfg, table);
    } else {
      t1 := FullBody(c, toks, idx, e, inParen, cfg, table);
    }
    FinishAt(c, toks, idx, e, inParen, cfg, t1);
  }

  /** The text of the tokens a rendering occupies is the rendering's string. */
  lemma RenderingText(c: Cat, toks: seq<Tok>, idx: nat, e: nat, cfg: Config)
    requires At(toks, idx, Print(c, cfg.lassoc, cfg.lambek)) && e == idx + |Print(c, cfg.lassoc, cfg.lambek)|
    ensures idx < e && SliceText(toks, idx, e) == ToStr(c, cfg.lassoc, cfg.lambek)
  {
    TextAt(toks, idx, Print(c, cfg.lassoc, cfg.lambek), e, ToStr(c, cfg.lassoc, cfg.lambek));
  }

  lemma TextAt(toks: seq<Tok>, idx: nat, w: seq<Tok>, e: nat, s: string)
    requires At(toks, idx, w) && e == idx + |w| && |w| > 0 && Join(w) == s
    ensures idx < e && SliceText(toks, idx, e) == s
  {
    AtText(toks, idx, w);
  }

  /** At a boundary after a whole rendering, the level ends with `c`. */
  lemma FinishAt(c: Cat, toks: seq<Tok>, idx: nat, e: nat, inParen: bool, cfg: Config, table: Table)
    requires Supported(cfg) && WellFormed(c) && Consistent(table, cfg)
    requires idx < e && Boundary(toks, e) && SliceText(toks, idx, e) == ToStr(c, cfg.lassoc, cfg.lambek)
    ensures Reads(Loop(toks, idx, e, inParen, cfg, BodyState(c, cfg.lambek), table), toks, e, inParen, cfg, c)
  {
    InternConsistent(table, cfg, c);
    if c.Complex? {
      assert Build(c.slash, First(c, cfg.lambek), Second(c, cfg.lambek), cfg.lambek) == c;
    }
  }

  /** Where the pieces of a fully parenthesised complex rendering lie: first operand, slash at `k`, second operand. */
  lemma FullLayout(c: Cat, toks: seq<Tok>, idx: nat, e: nat, cfg: Config) returns (k: nat)
    requires !cfg.lassoc && c.Complex? && WellFormed(c)
    requires At(toks, idx, Print(c, cfg.lassoc, cfg.lambek)) && e == idx + |Print(c, cfg.lassoc, cfg.lambek)|
    ensures var f := First(c, cfg.lambek);
            At(toks, idx, Wrap(Print(f, cfg.lassoc, cfg.lambek))) && k == idx + |Wrap(Print(f, cfg.lassoc, cfg.lambek))|
    ensures idx < k < |toks| && toks[k] == SlashTok(c.slash)
    ensures var g := Second(c, cfg.lambek);
            At(toks, k + 1, Wrap(Print(g, cfg.lassoc, cfg.lambek))) && e == k + 1 + |Wrap(Print(g, cfg.lassoc, cfg.lambek))|
    ensures BodyState(c, cfg.lambek) == State(SlashRoot(c.slash), Some(First(c, cfg.lambek)), Some(Second(c, cfg.lambek)))
  {
    var f, g := First(c, cfg.lambek), Second(c, cfg.lambek);
    var wf, wg := Wrap(Print(f, cfg.lassoc, cfg.lambek)), Wrap(Print(g, cfg.lassoc, cfg.lambek));
    FullShape(c, cfg.lassoc, cfg.lambek);
    k := SlashSeq(toks, idx, Print(c, cfg.lassoc, cfg.lambek), wf, c.slash, wg, e);
  }

  /** The pieces of a token sequence split at a slash. */
  lemma SlashSeq(toks: seq<Tok>, idx: nat, w: seq<Tok>, a: seq<Tok>, sl: Slash, b: seq<Tok>, e: nat) returns (k: nat)
    requires w == a + [SlashTok(sl)] + b && |a| > 0
    requires At(toks, idx, w) && e == idx + |w|
    ensures k == idx + |a| && At(toks, idx, a)
    ensures idx < k < |toks| && toks[k] == SlashTok(sl)
    ensures At(toks, k + 1, b) && e == k + 1 + |b|
  {
    AtSplit3(toks, idx, a, [SlashTok(sl)], b);
    k := idx + |a|;
    AtHead(toks, k, [SlashTok(sl)]);
  }

  /** A left-associative complex rendering: the result unwrapped, slash, argument. */
  lemma LassocShape(c: Cat, lassoc: bool, lambek: bool)
    requires lassoc && !lambek && c.Complex?
    ensures Print(c, lassoc, lambek) == Print(c.result, lassoc, lambek) + [SlashTok(c.slash)] + Wrap(Print(c.argument, lassoc, lambek))
  {
  }

  /** Full parenthesisation: reading the rendering of `c` leaves the loop in `BodyState(c)` at `e`. */
  lemma {:induction false} FullBody(c: Cat, toks: seq<Tok>, idx: nat, e: nat, inParen: bool, cfg: Config, table: Table)
    returns (table': Table)
    requires Supported(cfg) && !cfg.lassoc && WellFormed(c) && Consistent(table, cfg)
    requires At(toks, idx, Print(c, cfg.lassoc, cfg.lambek)) && e == idx + |Print(c, cfg.lassoc, cfg.lambek)|
    ensures Consistent(table', cfg)
    ensures Loop(toks, idx, idx, inParen, cfg, Start, table) == Loop(toks, idx, e, inParen, cfg, BodyState(c, cfg.lambek), table')
    decreases c, 1
  {
    if c.Atom? {
      AtomFirst(c, toks, idx, e, inParen, cfg, table);
      table' := table;
    } else {
      table' := FullComplex(c, toks, idx, e, inParen, cfg, table);
    }
  }

  /** An atomic rendering: one token, and the atom becomes `root`. */
  lemma AtomFirst(c: Cat, toks: seq<Tok>, idx: nat, e: nat, inParen: bool, cfg: Config, table: Table)
    requires c.Atom?
    requires At(toks, idx, Print(c, cfg.lassoc, cfg.lambek)) && e == idx + |Print(c, cfg.lassoc, cfg.lambek)|
    ensures Loop(toks, idx, idx, inParen, cfg, Start, table) == Loop(toks, idx, e, inParen, cfg, BodyState(c, cfg.lambek), table)
  {
    AtomBody(c, toks, idx, e, cfg);
    StepFirstAtom(toks, idx, inParen, cfg, table);
  }

  /** A complex fully parenthesised rendering: first operand, slash, second operand. */
  lemma {:induction false} FullComplex(c: Cat, toks: seq<Tok>, idx: nat, e: nat, inParen: bool, cfg: Config, table: Table)
    returns (table': Table)
    requires Supported(cfg) && !cfg.lassoc && WellFormed(c) && Consistent(table, cfg) && c.Complex?
    requires At(toks, idx, Print(c, cfg.lassoc, cfg.lambek)) && e == idx + |Print(c, cfg.lassoc, cfg.lambek)|
    ensures Consistent(table', cfg)
    ensures Loop(toks, idx, idx, inParen, cfg, Start, table) == Loop(toks, idx, e, inParen, cfg, BodyState(c, cfg.lambek), table')
    decreases c, 0
  {
    var k := FullLayout(c, toks, idx, e, cfg);
    var t1 := FirstOperand(First(c, cfg.lambek), toks, idx, k, inParen, cfg, table);
    table' := FullRest(c, toks, idx, k, e, inParen, cfg, t1);
  }

  lemma {:induction false} FullRest(c: Cat, toks: seq<Tok>, idx: nat, k: nat, e: nat, inParen: bool, cfg: Config, table: Table)
    returns (table': Table)
    requires Supported(cfg) && !cfg.lassoc && WellFormed(c) && Consistent(table, cfg) && c.Complex?
    requires At(toks, idx, Print(c, cfg.lassoc, cfg.lambek)) && e == idx + |Print(c, cfg.lassoc, cfg.lambek)|
    requires k == idx + |Wrap(Print(First(c, cfg.lambek), cfg.lassoc, cfg.lambek))|
    ensures Consistent(table', cfg)
    ensures Loop(toks, idx, k, inParen, cfg, OperandState(First(c, cfg.lambek)), table) == Loop(toks, idx, e, inParen, cfg, BodyState(c, cfg.lambek), table')
    decreases c, -1
  {
    var k' := FullLayout(c, toks, idx, e, cfg);
    var f, g := First(c, cfg.lambek), Second(c, cfg.lambek);
    var st := State(SlashRoot(c.slash), Some(f), None);
    var t2 := SlashAfterOperand(f, toks, idx, k, c.slash, inParen, cfg, table);
    table' := SecondOperand(g, toks, idx, k + 1, e, inParen, cfg, st, BodyState(c, cfg.lambek), t2);
  }

  /** Where the pieces of a left-associative complex rendering lie: the result's rendering, slash at `m`, argument. */
  lemma LassocLayout(c: Cat, toks: seq<Tok>, idx: nat, e: nat, cfg: Config) returns (m: nat)
    requires cfg.lassoc && !cfg.lambek && c.Complex? && WellFormed(c)
    requires At(toks, idx, Print(c, cfg.lassoc, cfg.lambek)) && e == idx + |Print(c, cfg.lassoc, cfg.lambek)|
    ensures At(toks, idx, Print(c.result, cfg.lassoc, cfg.lambek)) && m == idx + |Print(c.result, cfg.lassoc, cfg.lambek)|
    ensures idx < m < |toks| && toks[m] == SlashTok(c.slash)
    ensures At(toks, m + 1, Wrap(Print(c.argument, cfg.lassoc, cfg.lambek)))
            && e == m + 1 + |Wrap(Print(c.argument, cfg.lassoc, cfg.lambek))|
    ensures BodyState(c, cfg.lambek) == State(SlashRoot(c.slash), Some(c.result), Some(c.argument))
  {
    var pr, wa := Print(c.result, cfg.lassoc, cfg.lambek), Wrap(Print(c.argument, cfg.lassoc, cfg.lambek));
    LassocShape(c, cfg.lassoc, cfg.lambek);
    m := SlashSeq(toks, idx, Print(c, cfg.lassoc, cfg.lambek), pr, c.slash, wa, e);
  }

  /** Left-associative Steedman order: reading the rendering of `c` leaves the loop in `BodyState(c)` at `e`. */
  lemma {:induction false} LassocBody(c: Cat, toks: seq<Tok>, idx: nat, e: nat, inParen: bool, cfg: Config, table: Table)
    returns (table': Table)
    requires cfg.lassoc && !cfg.lambek && WellFormed(c) && Consistent(table, cfg)
    requires At(toks, idx, Print(c, cfg.lassoc, cfg.lambek)) && e == idx + |Print(c, cfg.lassoc, cfg.lambek)|
    ensures Consistent(table', cfg)
    ensures Loop(toks, idx, idx, inParen, cfg, Start, table) == Loop(toks, idx, e, inParen, cfg, BodyState(c, cfg.lambek), table')
    decreases c, 1
  {
    if c.Atom? {
      AtomFirst(c, toks, idx, e, inParen, cfg, table);
      table' := table;
    } else {
      table' := LassocComplex(c, toks, idx, e, inParen, cfg, table);
    }
  }

  /** A complex left-associative rendering: the result's rendering, slash, argument. */
  lemma {:induction false} LassocComplex(c: Cat, toks: seq<Tok>, idx: nat, e: nat, inParen: bool, cfg: Config, table: Table)
    returns (table': Table)
    requires cfg.lassoc && !cfg.lambek && WellFormed(c) && Consistent(table, cfg) && c.Complex?
    requires At(toks, idx, Print(c, cfg.lassoc, cfg.lambek)) && e == idx + |Print(c, cfg.lassoc, cfg.lambek)|
    ensures Consistent(table', cfg)
    ensures Loop(toks, idx, idx, inParen, cfg, Start, table) == Loop(toks, idx, e, inParen, cfg, BodyState(c, cfg.lambek), table')
    decreases c, 0
  {
    var m := LassocLayout(c, toks, idx, e, cfg);
    var t1 := LassocBody(c.result, toks, idx, m, inParen, cfg, table);
    table' := LassocRest(c, toks, idx, m, e, inParen, cfg, t1);
  }

  /** After the result's rendering of a left-associative complex rendering: slash, then argument. */
  lemma {:induction false} LassocRest(c: Cat, toks: seq<Tok>, idx: nat, m: nat, e: nat, inParen: bool, cfg: Config, table: Table)
    returns (table': Table)
    requires cfg.lassoc && !cfg.lambek && WellFormed(c) && Consistent(table, cfg) && c.Complex?
    requires At(toks, idx, Print(c, cfg.lassoc, cfg.lambek)) && e == idx + |Print(c, cfg.lassoc, cfg.lambek)|
    requires m == idx + |Print(c.result, cfg.lassoc, cfg.lambek)|
    ensures Consistent(table', cfg)
    ensures Loop(toks, idx, m, inParen, cfg, BodyState(c.result, cfg.lambek), table)
            == Loop(toks, idx, e, inParen, cfg, BodyState(c, cfg.lambek), table')
    decreases c, -1
  {
    var m' := LassocLayout(c, toks, idx, e, cfg);
    var st := State(SlashRoot(c.slash), Some(c.result), None);
    var t2 := LassocSlash(c.result, toks, idx, m, c.slash, inParen, cfg, table);
    table' := SecondOperand(c.argument, toks, idx, m + 1, e, inParen, cfg, st, BodyState(c, cfg.lambek), t2);
  }

  /** A parenthesised operand opening at `k` is read by a nested level that returns it at its `)`. */
  lemma {:induction false} NestedLevel(x: Cat, toks: seq<Tok>, k: nat, e: nat, cfg: Config, table: Table)
    requires Supported(cfg) && WellFormed(x) && Consistent(table, cfg) && x.Complex?
    requires At(toks, k, Wrap(Print(x, cfg.lassoc, cfg.lambek))) && e == k + |Wrap(Print(x, cfg.lassoc, cfg.lambek))|
    ensures k < |toks| && toks[k] == LParen
    ensures var o := Level(toks, k + 1, true, cfg, table);
            o.res == Success((x, e - 1)) && Consistent(o.table, cfg)
    decreases x, 3
  {
    ParenLayout(x, toks, k, e, cfg);
    LevelRoundTrip(x, toks, k + 1, e - 1, true, cfg, table);
    NestedOutcome(Level(toks, k + 1, true, cfg, table), toks, e - 1, cfg, x);
  }

  /** A nested level that reads `x` up to its `)` returns `x` there, in either mode. */
  lemma NestedOutcome(o: Outcome, toks: seq<Tok>, e: nat, cfg: Config, x: Cat)
    requires Reads(o, toks, e, true, cfg, x) && e < |toks|
    ensures o.res == Success((x, e)) && Consistent(o.table, cfg)
  {
  }

  /** Where a parenthesised operand's pieces lie, and what the nested level it opens must return. */
  lemma ParenLayout(x: Cat, toks: seq<Tok>, k: nat, e: nat, cfg: Config)
    requires x.Complex?
    requires At(toks, k, Wrap(Print(x, cfg.lassoc, cfg.lambek))) && e == k + |Wrap(Print(x, cfg.lassoc, cfg.lambek))|
    ensures k < |toks| && toks[k] == LParen
    ensures At(toks, k + 1, Print(x, cfg.lassoc, cfg.lambek)) && e - 1 == k + 1 + |Print(x, cfg.lassoc, cfg.lambek)|
    ensures e - 1 < |toks| && Boundary(toks, e - 1)
  {
    ParenSeq(toks, k, Print(x, cfg.lassoc, cfg.lambek), e);
  }

  /** The pieces of a parenthesised token sequence. */
  lemma ParenSeq(toks: seq<Tok>, k: nat, p: seq<Tok>, e: nat)
    requires |p| > 1 && At(toks, k, Wrap(p)) && e == k + |Wrap(p)|
    ensures k < |toks| && toks[k] == LParen
    ensures At(toks, k + 1, p) && e - 1 == k + 1 + |p|
    ensures e - 1 < |toks| && toks[e - 1] == RParen
  {
    AtSplit3(toks, k, [LParen], p, [RParen]);
    AtHead(toks, k, [LParen]);
    AtHead(toks, k + 1 + |p|, [RParen]);
  }

  /** Where an atomic operand lies. */
  lemma AtomLayout(x: Cat, toks: seq<Tok>, k: nat, e: nat, cfg: Config)
    requires x.Atom? && WellFormed(x)
    requires At(toks, k, Wrap(Print(x, cfg.lassoc, cfg.lambek))) && e == k + |Wrap(Print(x, cfg.lassoc, cfg.lambek))|
    ensures k < |toks| && toks[k] == AtomTok(x.root) && e == k + 1
    ensures IsAtomText(x.root) && ToStr(x, cfg.lassoc, cfg.lambek) == x.root
  {
    AtHead(toks, k, [AtomTok(x.root)]);
    AtomText(x.root, cfg.lassoc, cfg.lambek);
  }

  /** Where an atomic rendering lies, and the loop state after it. */
  lemma AtomBody(c: Cat, toks: seq<Tok>, idx: nat, e: nat, cfg: Config)
    requires c.Atom?
    requires At(toks, idx, Print(c, cfg.lassoc, cfg.lambek)) && e == idx + |Print(c, cfg.lassoc, cfg.lambek)|
    ensures idx < |toks| && toks[idx] == AtomTok(c.root) && e == idx + 1
    ensures BodyState(c, cfg.lambek) == State(AtomRoot(toks[idx].text), None, None)
  {
    AtHead(toks, idx, [AtomTok(c.root)]);
  }

  /** A first operand, ending at `e`: an atom, or a parenthesised rendering read by a nested level. */
  lemma {:induction false} FirstOperand(x: Cat, toks: seq<Tok>, idx: nat, e: nat, inParen: bool, cfg: Config, table: Table)
    returns (table': Table)
    requires Supported(cfg) && WellFormed(x) && Consistent(table, cfg)
    requires x.Complex? ==> !cfg.lassoc
    requires At(toks, idx, Wrap(Print(x, cfg.lassoc, cfg.lambek))) && e == idx + |Wrap(Print(x, cfg.lassoc, cfg.lambek))|
    ensures Consistent(table', cfg)
    ensures Loop(toks, idx, idx, inParen, cfg, Start, table) == Loop(toks, idx, e, inParen, cfg, OperandState(x), table')
    decreases x, 5
  {
    if x.Atom? {
      AtomLayout(x, toks, idx, e, cfg);
      StepFirstAtom(toks, idx, inParen, cfg, table);
      table' := table;
    } else {
      table' := FirstParen(x, toks, idx, e, inParen, cfg, table);
    }
  }

  lemma {:induction false} FirstParen(x: Cat, toks: seq<Tok>, idx: nat, e: nat, inParen: bool, cfg: Config, table: Table)
    returns (table': Table)
    requires Supported(cfg) && WellFormed(x) && Consistent(table, cfg)
    requires x.Complex? && !cfg.lassoc
    requires At(toks, idx, Wrap(Print(x, cfg.lassoc, cfg.lambek))) && e == idx + |Wrap(Print(x, cfg.lassoc, cfg.lambek))|
    ensures Consistent(table', cfg)
    ensures Loop(toks, idx, idx, inParen, cfg, Start, table) == Loop(toks, idx, e, inParen, cfg, OperandState(x), table')
    decreases x, 4
  {
    NestedLevel(x, toks, idx, e, cfg, table);
    assert OperandState(x) == State(TreeRoot(x), None, None);
    StepFirstParen(toks, idx, e, inParen, cfg, table, x);
    table' := Level(toks, idx + 1, true, cfg, table).table;
  }

  /** The slash `sl` at `k` after a first operand: the operand (interned when atomic) becomes `left`. */
  lemma SlashAfterOperand(x: Cat, toks: seq<Tok>, idx: nat, k: nat, sl: Slash, inParen: bool, cfg: Config, table: Table)
    returns (table': Table)
    requires Supported(cfg) && WellFormed(x) && Consistent(table, cfg)
    requires idx < k < |toks| && toks[k] == SlashTok(sl)
    requires At(toks, idx, Wrap(Print(x, cfg.lassoc, cfg.lambek))) && k == idx + |Wrap(Print(x, cfg.lassoc, cfg.lambek))|
    ensures Consistent(table', cfg)
    ensures Loop(toks, idx, k, inParen, cfg, OperandState(x), table)
            == Loop(toks, idx, k + 1, inParen, cfg, State(SlashRoot(sl), Some(x), None), table')
  {
    if x.Atom? {
      RenderingText(x, toks, idx, k, cfg);
      InternConsistent(table, cfg, x);
      table' := table[(ToStr(x, cfg.lassoc, cfg.lambek), cfg.lambek) := x];
    } else {
      table' := table;
    }
  }

  /** Left-associative chains: the slash `sl` at `m` after the rendering of `r` makes `r` the left operand. */
  lemma LassocSlash(r: Cat, toks: seq<Tok>, idx: nat, m: nat, sl: Slash, inParen: bool, cfg: Config, table: Table)
    returns (table': Table)
    requires cfg.lassoc && !cfg.lambek && WellFormed(r) && Consistent(table, cfg)
    requires idx < m < |toks| && toks[m] == SlashTok(sl)
    requires At(toks, idx, Print(r, cfg.lassoc, cfg.lambek)) && m == idx + |Print(r, cfg.lassoc, cfg.lambek)|
    ensures Consistent(table', cfg)
    ensures Loop(toks, idx, m, inParen, cfg, BodyState(r, cfg.lambek), table)
            == Loop(toks, idx, m + 1, inParen, cfg, State(SlashRoot(sl), Some(r), None), table')
  {
    RenderingText(r, toks, idx, m, cfg);
    if r.Atom? {
      assert BodyState(r, cfg.lambek) == OperandState(r);
      assert Wrap(Print(r, cfg.lassoc, cfg.lambek)) == Print(r, cfg.lassoc, cfg.lambek);
      table' := SlashAfterOperand(r, toks, idx, m, sl, inParen, cfg, table);
    } else {
      table' := LassocExtend(r, toks, idx, m, sl, inParen, cfg, table);
    }
  }

  /** Left-associative chains: the slash `sl` at `m` after a complete `left slash right` folds it into `left`. */
  lemma LassocExtend(r: Cat, toks: seq<Tok>, idx: nat, m: nat, sl: Slash, inParen: bool, cfg: Config, table: Table)
    returns (table': Table)
    requires cfg.lassoc && !cfg.lambek && WellFormed(r) && r.Complex? && Consistent(table, cfg)
    requires idx < m < |toks| && toks[m] == SlashTok(sl)
    requires SliceText(toks, idx, m) == ToStr(r, cfg.lassoc, cfg.lambek)
    ensures Consistent(table', cfg)
    ensures Loop(toks, idx, m, inParen, cfg, BodyState(r, cfg.lambek), table)
            == Loop(toks, idx, m + 1, inParen, cfg, State(SlashRoot(sl), Some(r), None), table')
  {
    InternConsistent(table, cfg, r);
    assert Build(r.slash, r.result, r.argument, false) == r;
    table' := table[(ToStr(r, true, false), false) := r];
  }

  /** A second operand from `k` to `e`: an atom (interned) or a parenthesised rendering becomes `right`. */
  lemma {:induction false} SecondOperand(y: Cat, toks: seq<Tok>, idx: nat, k: nat, e: nat, inParen: bool, cfg: Config,
                                         st: State, st': State, table: Table)
    returns (table': Table)
    requires Supported(cfg) && WellFormed(y) && Consistent(table, cfg)
    requires st.root.SlashRoot? && st.left.Some? && st.right.None? && idx < k && st' == st.(right := Some(y))
    requires At(toks, k, Wrap(Print(y, cfg.lassoc, cfg.lambek))) && e == k + |Wrap(Print(y, cfg.lassoc, cfg.lambek))|
    ensures Consistent(table', cfg)
    ensures Loop(toks, idx, k, inParen, cfg, st, table) == Loop(toks, idx, e, inParen, cfg, st', table')
    decreases y, 5
  {
    if y.Atom? {
      AtomLayout(y, toks, k, e, cfg);
      InternConsistent(table, cfg, y);
      StepSecondAtom(toks, idx, k, inParen, cfg, st, table);
      table' := table[(ToStr(y, cfg.lassoc, cfg.lambek), cfg.lambek) := y];
    } else {
      table' := SecondParen(y, toks, idx, k, e, inParen, cfg, st, st', table);
    }
  }

  lemma {:induction false} SecondParen(y: Cat, toks: seq<Tok>, idx: nat, k: nat, e: nat, inParen: bool, cfg: Config,
                                       st: State, st': State, table: Table)
    returns (table': Table)
    requires Supported(cfg) && WellFormed(y) && Consistent(table, cfg) && y.Complex?
    requires st.root.SlashRoot? && st.left.Some? && st.right.None? && idx < k && st' == st.(right := Some(y))
    requires At(toks, k, Wrap(Print(y, cfg.lassoc, cfg.lambek))) && e == k + |Wrap(Print(y, cfg.lassoc, cfg.lambek))|
    ensures Consistent(table', cfg)
    ensures Loop(toks, idx, k, inParen, cfg, st, table) == Loop(toks, idx, e, inParen, cfg, st', table')
    decreases y, 4
  {
    NestedLevel(y, toks, k, e, cfg, table);
    StepSecondParen(toks, idx, k, e, inParen, cfg, st, table, y);
    table' := Level(toks, k + 1, true, cfg, table).table;
  }

  /** The whole token sequence lies at index 0. */
  lemma AtWhole(toks: seq<Tok>)
    ensures At(toks, 0, toks)
  {
    AtSlice(toks, 0, toks);
    assert toks[0..|toks|] == toks;
  }

  /**
   * The round trip: parsing the rendering of a well-formed tree, in the
   * notation it was rendered in, gives the tree back, strict or not, and the
   * table stays consistent with the notation.
   */
  lemma FromStrToStr(c: Cat, cfg: Config, table: Table)
    requires Supported(cfg) && WellFormed(c) && Consistent(table, cfg)
    ensures var p := FromStr(ToStr(c, cfg.lassoc, cfg.lambek), cfg, table);
            p.res == Success(c) && Consistent(p.table, cfg)
  {
    var s := ToStr(c, cfg.lassoc, cfg.lambek);
    if (s, cfg.lambek) in table {
      assert Keeps(table, cfg, c);
    } else {
      var toks := Print(c, cfg.lassoc, cfg.lambek);
      PrintSeparated(c, cfg.lassoc, cfg.lambek);
      TokenizeJoin(toks);
      AtWhole(toks);
      LevelRoundTrip(c, toks, 0, |toks|, false, cfg, table);
    }
  }

  /**
   * Consistency is exactly what the round trip needs: every well-formed
   * tree reads back from its rendering if and only if the table is
   * consistent with the notation.
   */
  lemma RoundTripIffConsistent(cfg: Config, table: Table)
    requires Supported(cfg)
    ensures Consistent(table, cfg) <==>
            forall c :: WellFormed(c) ==> FromStr(ToStr(c, cfg.lassoc, cfg.lambek), cfg, table).res == Success(c)
  {
    if Consistent(table, cfg) {
      forall c | WellFormed(c)
        ensures FromStr(ToStr(c, cfg.lassoc, cfg.lambek), cfg, table).res == Success(c)
      {
        FromStrToStr(c, cfg, table);
      }
    } else {
      var c :| !Keeps(table, cfg, c);
      assert FromStr(ToStr(c, cfg.lassoc, cfg.lambek), cfg, table).res != Success(c);
    }
  }

  /** `CategoryTree.from_str(str(t)) == t` with the default flags, starting from an empty table. */
  lemma FromStrStr(c: Cat)
    requires WellFormed(c)
    ensures FromStr(Str(c), Config(false, false, true), map[]).res == Success(c)
  {
    EmptyConsistent(Config(false, false, true));
    FromStrToStr(c, Config(false, false, true), map[]);
  }
}
