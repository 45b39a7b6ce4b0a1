/**
 * `_parse_str` exactly as written at the left-associative chain step
 * (category_tree.py, the branch that turns `root`, `left` and `right` into
 * a new `left`). When the chain prefix is already interned, the source
 * first rebinds `left` to the cached tree and only then checks it against
 * `cls(root, left, right)`, a tree that has the cached tree as a child: the
 * check can never hold, so every cached chain prefix raises. The parser of
 * `CategoryParser` instead checks the cached tree against the tree it is
 * about to build; this module keeps the as-written step, everything else
 * being the same, and relates the two.
 */
module CategoryParserAsWritten {
  import opened Wrappers
  import opened CategoryTree
  import opened CategoryTokens
  import opened CategoryPrinter
  import opened CategoryParser
  import opened CategoryRoundTrip

  /** The sanity check after `left = INSTANCES[key]` compares a tree with a tree that contains it. */
  lemma {:induction false} ChainCheckNeverHolds(cached: Cat, sl: Slash, right: Cat, lambek: bool)
    ensures Build(sl, cached, right, lambek) != cached
  {
    var b := Build(sl, cached, right, lambek);
    assert cached == b.result || cached == b.argument;
    assert cached < b;
  }

  /** `_parse_str` as written: one parenthesis level starting at token `idx`. */
  function LevelAsWritten(toks: seq<Tok>, idx: nat, inParen: bool, cfg: Config, table: Table): (o: Outcome)
    decreases Rem(toks, idx), 3
    ensures o.res.Success? ==> o.res.value.1 >= idx
    ensures Extends(table, o.table)
  {
    LoopAsWritten(toks, idx, idx, inParen, cfg, Start, table)
  }

  /** The `while` loop as written; only the chain step differs from `CategoryParser.Loop`. */
  function LoopAsWritten(toks: seq<Tok>, idx: nat, i: int, inParen: bool, cfg: Config, st: State, table: Table): (o: Outcome)
    requires idx <= i && Coherent(st) && (st.left.Some? ==> idx < i)
    decreases Rem(toks, i), 1
    ensures o.res.Success? ==> o.res.value.1 >= idx
    ensures Extends(table, o.table)
  {
    if i >= |toks| then
      if inParen && cfg.strict then Outcome(Failure(UnclosedParen), table)
      else Finish(toks, idx, i, cfg, st, table)
    else
      var t := toks[i];
      if t == RParen then
        if !inParen && cfg.strict then Outcome(Failure(ExtraneousClose), table)
        else Finish(toks, idx, i, cfg, st, table)
      else if st.right.Some? && (!cfg.lassoc || !t.SlashTok?) then
        if !inParen || cfg.strict then Outcome(Failure(ExtraneousAfterRight), table)
        else Finish(toks, idx, i - 1, cfg, st, table)
      else if t.SlashTok? then
        if st.root.NoRoot? then Outcome(Failure(MissingLeft), table)
        else if st.left.None? then
          if st.root.TreeRoot? then
            LoopAsWritten(toks, idx, i + 1, inParen, cfg, State(SlashRoot(t.sl), Some(st.root.tree), None), table)
          else
            var a := st.root.text;
            if !IsAtomText(a) then Outcome(Failure(NotAnAtom(a)), table)
            else match Intern(table, SliceText(toks, idx, i), cfg.lambek, Atom(a))
              case Failure(e) => Outcome(Failure(e), table)
              case Success(table') =>
                LoopAsWritten(toks, idx, i + 1, inParen, cfg, State(SlashRoot(t.sl), Some(Atom(a)), None), table')
        else if !cfg.lassoc || st.right.None? then Outcome(Failure(ConsecutiveSlashes), table)
        else
          var key := SliceText(toks, idx, i);
          if (key, cfg.lambek) in table then
            // `left = INSTANCES[key]`, then a check that ChainCheckNeverHolds shows to fail
            Outcome(Failure(InstanceMismatch(key)), table)
          else
            var built := Build(st.root.sl, st.left.value, st.right.value, cfg.lambek);
            LoopAsWritten(toks, idx, i + 1, inParen, cfg, State(SlashRoot(t.sl), Some(built), None),
                          table[(key, cfg.lambek) := built])
      else if t == LParen then
        var o := LevelAsWritten(toks, i + 1, true, cfg, table);
        match o.res
        case Failure(e) => Outcome(Failure(e), o.table)
        case Success((p, j)) => PlaceAsWritten(toks, idx, j, inParen, cfg, st, o.table, TreeRoot(p))
      else
        PlaceAsWritten(toks, idx, i, inParen, cfg, st, table, AtomRoot(t.text))
  }

  /** Operand placement, continuing with the as-written loop. */
  function PlaceAsWritten(toks: seq<Tok>, idx: nat, i: int, inParen: bool, cfg: Config, st: State, table: Table, p: RootVal): (o: Outcome)
    requires idx <= i && Coherent(st) && (st.left.Some? ==> idx < i)
    requires p.AtomRoot? || p.TreeRoot?
    decreases Rem(toks, i + 1), 2
    ensures o.res.Success? ==> o.res.value.1 >= idx
    ensures Extends(table, o.table)
  {
    if st.left.None? then
      if !st.root.NoRoot? then Outcome(Failure(ExpectedSlash), table)
      else if cfg.lassoc && p.TreeRoot? then Outcome(Failure(ParenInLeftAssoc), table)
      else LoopAsWritten(toks, idx, i + 1, inParen, cfg, State(p, None, None), table)
    else if p.TreeRoot? then
      LoopAsWritten(toks, idx, i + 1, inParen, cfg, st.(right := Some(p.tree)), table)
    else if !IsAtomText(p.text) then Outcome(Failure(NotAnAtom(p.text)), table)
    else match Intern(table, p.text, cfg.lambek, Atom(p.text))
      case Failure(e) => Outcome(Failure(e), table)
      case Success(table') => LoopAsWritten(toks, idx, i + 1, inParen, cfg, st.(right := Some(Atom(p.text))), table')
  }

  /** `from_str` over the as-written parser. */
  function FromStrAsWritten(s: string, cfg: Config, table: Table): (p: Parsed)
    ensures (s, cfg.lambek) in table ==> p == Parsed(Success(table[(s, cfg.lambek)]), table)
    ensures Extends(table, p.table)
  {
    if (s, cfg.lambek) in table then Parsed(Success(table[(s, cfg.lambek)]), table)
    else
      var o := LevelAsWritten(Tokenize(s), 0, false, cfg, table);
      match o.res
      case Failure(e) => Parsed(Failure(e), o.table)
      case Success((c, _)) => Parsed(Success(c), o.table)
  }

  /**
   * Whenever the as-written parser succeeds, and always in fully
   * parenthesised notation, it returns what the corrected parser returns and
   * leaves the same table: the two differ only in the as-written parser
   * raising on a cached left-associative chain prefix.
   */
  lemma {:induction false} LevelAgrees(toks: seq<Tok>, idx: nat, inParen: bool, cfg: Config, table: Table)
    decreases Rem(toks, idx), 3
    ensures LevelAsWritten(toks, idx, inParen, cfg, table).res.Success? || !cfg.lassoc ==>
              LevelAsWritten(toks, idx, inParen, cfg, table) == Level(toks, idx, inParen, cfg, table)
  {
    LoopAgrees(toks, idx, idx, inParen, cfg, Start, table);
  }

  lemma {:induction false} LoopAgrees(toks: seq<Tok>, idx: nat, i: int, inParen: bool, cfg: Config, st: State, table: Table)
    requires idx <= i && Coherent(st) && (st.left.Some? ==> idx < i)
    decreases Rem(toks, i), 1
    ensures LoopAsWritten(toks, idx, i, inParen, cfg, st, table).res.Success? || !cfg.lassoc ==>
              LoopAsWritten(toks, idx, i, inParen, cfg, st, table) == Loop(toks, idx, i, inParen, cfg, st, table)
  {
    if i < |toks| {
      var t := toks[i];
      if t == RParen || (st.right.Some? && (!cfg.lassoc || !t.SlashTok?)) {
      } else if t.SlashTok? {
        if st.root.NoRoot? {
        } else if st.left.None? {
          if st.root.TreeRoot? {
            LoopAgrees(toks, idx, i + 1, inParen, cfg, State(SlashRoot(t.sl), Some(st.root.tree), None), table);
          } else {
            var a := st.root.text;
            var r := Intern(table, SliceText(toks, idx, i), cfg.lambek, Atom(a));
            if IsAtomText(a) && r.Success? {
              LoopAgrees(toks, idx, i + 1, inParen, cfg, State(SlashRoot(t.sl), Some(Atom(a)), None), r.value);
            }
          }
        } else if cfg.lassoc && st.right.Some? {
          var key := SliceText(toks, idx, i);
          var built := Build(st.root.sl, st.left.value, st.right.value, cfg.lambek);
          if (key, cfg.lambek) !in table {
            LoopAgrees(toks, idx, i + 1, inParen, cfg, State(SlashRoot(t.sl), Some(built), None),
                       table[(key, cfg.lambek) := built]);
          }
        }
      } else if t == LParen {
        LevelAgrees(toks, i + 1, true, cfg, table);
        var o := LevelAsWritten(toks, i + 1, true, cfg, table);
        if o.res.Success? {
          PlaceAgrees(toks, idx, o.res.value.1, inParen, cfg, st, o.table, TreeRoot(o.res.value.0));
        }
      } else {
        PlaceAgrees(toks, idx, i, inParen, cfg, st, table, AtomRoot(t.text));
      }
    }
  }

  lemma {:induction false} PlaceAgrees(toks: seq<Tok>, idx: nat, i: int, inParen: bool, cfg: Config, st: State, table: Table, p: RootVal)
    requires idx <= i && Coherent(st) && (st.left.Some? ==> idx < i)
    requires p.AtomRoot? || p.TreeRoot?
    decreases Rem(toks, i + 1), 2
    ensures PlaceAsWritten(toks, idx, i, inParen, cfg, st, table, p).res.Success? || !cfg.lassoc ==>
              PlaceAsWritten(toks, idx, i, inParen, cfg, st, table, p) == Place(toks, idx, i, inParen, cfg, st, table, p)
  {
    if st.left.None? {
      if st.root.NoRoot? && !(cfg.lassoc && p.TreeRoot?) {
        LoopAgrees(toks, idx, i + 1, inParen, cfg, State(p, None, None), table);
      }
    } else if p.TreeRoot? {
      LoopAgrees(toks, idx, i + 1, inParen, cfg, st.(right := Some(p.tree)), table);
    } else if IsAtomText(p.text) {
      var r := Intern(table, p.text, cfg.lambek, Atom(p.text));
      if r.Success? {
        LoopAgrees(toks, idx, i + 1, inParen, cfg, st.(right := Some(Atom(p.text))), r.value);
      }
    }
  }

  /**
   * `from_str` as written, when it returns, returns what the modelled
   * `from_str` returns; in fully parenthesised notation the two are the same.
   */
  lemma FromStrAgrees(s: string, cfg: Config, table: Table)
    ensures FromStrAsWritten(s, cfg, table).res.Success? || !cfg.lassoc ==>
              FromStrAsWritten(s, cfg, table) == FromStr(s, cfg, table)
  {
    LevelAgrees(Tokenize(s), 0, false, cfg, table);
  }

  /**
   * The round trip for the parser as written: in fully parenthesised
   * notation it always reads a rendering back; in left-associative notation
   * it either raises or reads the rendering back.
   */
  lemma FromStrToStrAsWritten(c: Cat, cfg: Config, table: Table)
    requires Supported(cfg) && WellFormed(c) && Consistent(table, cfg)
    ensures var p := FromStrAsWritten(ToStr(c, cfg.lassoc, cfg.lambek), cfg, table);
            (p.res.Success? || !cfg.lassoc) ==> p.res == Success(c) && Consistent(p.table, cfg)
  {
    FromStrAgrees(ToStr(c, cfg.lassoc, cfg.lambek), cfg, table);
    FromStrToStr(c, cfg, table);
  }

  const Lassoc := Config(true, false, true)
  const Default := Config(false, false, true)
  const A := Atom("A")
  const B := Atom("B")
  const AB := Complex(Fwd, A, B)
  const ABT := [AtomTok("A"), SlashTok(Fwd), AtomTok("B")]
  const ABC := [AtomTok("A"), SlashTok(Fwd), AtomTok("B"), SlashTok(Fwd), AtomTok("C")]
  /** The table after `A` and `B` are interned, and after `A/B` is. */
  const T2 := map[("A", false) := A, ("B", false) := B]
  const TAB := T2[("A/B", false) := AB]
  const ABxC := Complex(Fwd, AB, Atom("C"))
  const TABC := TAB[("C", false) := Atom("C")][("A/B/C", false) := ABxC]
  /** The loop states: an atom read, a slash read, a right operand read, and a chain step done. */
  const S0 := State(AtomRoot("A"), None, None)
  const S1 := State(SlashRoot(Fwd), Some(A), None)
  const S2 := State(SlashRoot(Fwd), Some(A), Some(B))
  const S4 := State(SlashRoot(Fwd), Some(AB), None)

  lemma TokensAB()
    ensures Tokenize("A/B") == ABT
  {
    assert "A/B"[1..] == "/B" && "/B"[1..] == "B" && "B"[1..] == "";
  }

  lemma TokensABC()
    ensures Tokenize("A/B/C") == ABC
  {
    assert "A/B/C"[1..] == "/B/C" && "/B/C"[1..] == "B/C" && "B/C"[1..] == "/C";
    assert "/C"[1..] == "C" && "C"[1..] == "";
  }

  /** The texts of the prefixes the parser slices off `A/B` and `A/B/C`. */
  lemma PrefixTexts()
    ensures SliceText(ABT, 0, 1) == "A" && SliceText(ABT, 0, 3) == "A/B"
    ensures SliceText(ABC, 0, 1) == "A" && SliceText(ABC, 0, 3) == "A/B" && SliceText(ABC, 0, 5) == "A/B/C"
  {
    var toks := ABC;
    assert ABT[1..][1..][1..] == [];
    assert Join(ABT[1..][1..]) == "B";
    assert Join(ABT[1..]) == "/B";
    assert Join(ABT) == "A/B";
    assert ABT[0..3] == ABT && toks[0..3] == ABT;
    assert toks[4..][1..] == [];
    assert Join(toks[4..]) == "C";
    assert toks[3..][1..] == toks[4..];
    assert Join(toks[3..]) == "/C";
    assert toks[2..][1..] == toks[3..];
    assert Join(toks[2..]) == "B/C";
    assert toks[1..][1..] == toks[2..];
    assert Join(toks[1..]) == "/B/C";
    assert Join(toks) == "A/B/C";
    assert toks[0..5] == toks;
    assert toks[0..1] == ABT[0..1] == [AtomTok("A")];
    assert [AtomTok("A")][1..] == [];
  }

  /** `A` then `/`: the atom is interned and becomes `left`. */
  lemma FirstSlash(toks: seq<Tok>, cfg: Config, table: Table)
    requires toks == ABT || toks == ABC
    requires cfg.lambek == false && Intern(table, "A", false, A).Success?
    ensures Loop(toks, 0, 0, false, cfg, Start, table) == Loop(toks, 0, 2, false, cfg, S1, Intern(table, "A", false, A).value)
    ensures LoopAsWritten(toks, 0, 0, false, cfg, Start, table) == LoopAsWritten(toks, 0, 2, false, cfg, S1, Intern(table, "A", false, A).value)
  {
    PrefixTexts();
    assert IsAtomText("A");
  }

  /** Then `B`: interned and becoming `right`. */
  lemma SecondAtom(toks: seq<Tok>, cfg: Config, table: Table)
    requires toks == ABT || toks == ABC
    requires cfg.lambek == false && ("B", false) !in table
    ensures Loop(toks, 0, 2, false, cfg, S1, table) == Loop(toks, 0, 3, false, cfg, S2, table[("B", false) := B])
    ensures LoopAsWritten(toks, 0, 2, false, cfg, S1, table) == LoopAsWritten(toks, 0, 3, false, cfg, S2, table[("B", false) := B])
  {
    assert IsAtomText("B");
  }

  /** The table after `from_str("A/B")` with the default flags. */
  lemma AfterAB()
    ensures FromStr("A/B", Default, map[]).table == TAB
  {
    TokensAB();
    PrefixTexts();
    FirstSlash(ABT, Default, map[]);
    SecondAtom(ABT, Default, map[("A", false) := A]);
    assert Finish(ABT, 0, 3, Default, S2, T2).table == TAB;
  }

  /** As written, the second slash of `A/B/C` finds `A/B` cached and raises. */
  lemma AsWrittenABC()
    ensures LevelAsWritten(ABC, 0, false, Lassoc, TAB).res == Failure(InstanceMismatch("A/B"))
  {
    assert LevelAsWritten(ABC, 0, false, Lassoc, TAB) == LoopAsWritten(ABC, 0, 0, false, Lassoc, Start, TAB);
    PrefixTexts();
    FirstSlash(ABC, Lassoc, TAB);
    assert LoopAsWritten(ABC, 0, 2, false, Lassoc, S1, TAB) == LoopAsWritten(ABC, 0, 3, false, Lassoc, S2, TAB);
  }

  /** The corrected chain step reuses the cached `A/B`. */
  lemma ChainStep()
    ensures Loop(ABC, 0, 2, false, Lassoc, S1, TAB) == Loop(ABC, 0, 4, false, Lassoc, S4, TAB)
  {
    PrefixTexts();
    assert Loop(ABC, 0, 2, false, Lassoc, S1, TAB) == Loop(ABC, 0, 3, false, Lassoc, S2, TAB);
  }

  /** Then `C` and the end: `(A/B)/C`, cached under `A/B/C`. */
  lemma ChainEnd()
    ensures Loop(ABC, 0, 4, false, Lassoc, S4, TAB) == Outcome(Success((ABxC, 5)), TABC)
  {
    PrefixTexts();
    assert IsAtomText("C");
    var t' := TAB[("C", false) := Atom("C")];
    assert Loop(ABC, 0, 4, false, Lassoc, S4, TAB) == Loop(ABC, 0, 5, false, Lassoc, S4.(right := Some(Atom("C"))), t');
  }

  /** The modelled parser reads `(A/B)/C`. */
  lemma CorrectedABC()
    ensures Level(ABC, 0, false, Lassoc, TAB) == Outcome(Success((ABxC, 5)), TABC)
  {
    assert Level(ABC, 0, false, Lassoc, TAB) == Loop(ABC, 0, 0, false, Lassoc, Start, TAB);
    FirstSlash(ABC, Lassoc, TAB);
    ChainStep();
    ChainEnd();
  }

  /**
   * After `from_str("A/B")`, `from_str("A/B/C", left_associative=True)`
   * meets the cached prefix `A/B` and raises as written, where the modelled
   * parser reads `(A/B)/C`.
   */
  lemma CachedPrefixAborts()
    ensures var t := FromStr("A/B", Default, map[]).table;
            FromStrAsWritten("A/B/C", Lassoc, t).res == Failure(InstanceMismatch("A/B"))
            && FromStr("A/B/C", Lassoc, t).res == Success(ABxC)
  {
    AfterAB();
    TokensABC();
    AsWrittenABC();
    CorrectedABC();
  }
}
