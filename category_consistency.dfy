/**
 * The intern table a parse leaves need not map every key to a tree
 * rendering as that key. From an empty table, a strict `from_str("(A)/B")`
 * caches `A/B` under `(A)/B`, and a left-associative `from_str("A/B/C")`
 * caches `(A/B)/C` under `A/B/C`. These tables are still consistent with
 * the notations, so the round trip of `CategoryRoundTrip` still applies to
 * them.
 */
module CategoryConsistency {
  import opened Wrappers
  import opened CategoryTree
  import opened CategoryTokens
  import opened CategoryPrinter
  import opened CategoryParser
  import opened CategoryRoundTrip
  import opened CategoryParserAsWritten

  /** `A/B` renders as `A/B` in either Steedman notation. */
  lemma PairRendering(lassoc: bool)
    ensures Print(AB, lassoc, false) == ABT && ToStr(AB, lassoc, false) == "A/B"
  {
    PrefixTexts();
    assert ABT[0..3] == ABT;
  }

  /** `(A/B)/C` renders as `A/B/C` left-associatively, and opens with `(` fully parenthesised. */
  lemma ChainRenderings()
    ensures Print(ABxC, true, false) == ABC && ToStr(ABxC, true, false) == "A/B/C"
    ensures ToStr(ABxC, false, false)[0] == '('
  {
    PairRendering(true);
    PairRendering(false);
    PrefixTexts();
    assert ABC[0..5] == ABC;
    assert ABT + [SlashTok(Fwd)] + [AtomTok("C")] == ABC;
    var p := Print(ABxC, false, false);
    assert p[0] == LParen;
    assert Join(p) == "(" + Join(p[1..]);
  }

  /** The example trees are well-formed. */
  lemma ChainWellFormed()
    ensures WellFormed(AB) && WellFormed(ABxC)
  {
    assert IsAtomText("A") && IsAtomText("B") && IsAtomText("C");
  }

  /** `A` and `B`, each cached under its own rendering, in either Steedman notation. */
  lemma AtomsConsistent(lassoc: bool)
    ensures Consistent(T2, Config(lassoc, false, true))
  {
    var cfg := Config(lassoc, false, true);
    AtomText("A", lassoc, false);
    AtomText("B", lassoc, false);
    EmptyConsistent(cfg);
    InternConsistent(map[], cfg, A);
    var t1 := map[][("A", false) := A];
    assert Consistent(t1, cfg);
    InternConsistent(t1, cfg, B);
    assert t1[("B", false) := B] == T2;
  }

  /** `A`, `B`, `A/B` and `C`, each cached under its own rendering, in either Steedman notation. */
  lemma PrefixConsistent(lassoc: bool)
    ensures Consistent(TAB[("C", false) := Atom("C")], Config(lassoc, false, true))
  {
    var cfg := Config(lassoc, false, true);
    PairRendering(lassoc);
    AtomText("C", lassoc, false);
    AtomsConsistent(lassoc);
    InternConsistent(T2, cfg, AB);
    assert Consistent(TAB, cfg);
    InternConsistent(TAB, cfg, Atom("C"));
  }

  /** In full parenthesisation `A/B/C` raises: the second slash comes after a complete right operand. */
  lemma FullRejectsABC()
    ensures FromStr("A/B/C", Default, map[]).res == Failure(ExtraneousAfterRight)
  {
    TokensABC();
    assert Level(ABC, 0, false, Default, map[]) == Loop(ABC, 0, 0, false, Default, Start, map[]);
    FirstSlash(ABC, Default, map[]);
    SecondAtom(ABC, Default, map[("A", false) := A]);
    assert Loop(ABC, 0, 3, false, Default, S2, map[("A", false) := A][("B", false) := B]).res == Failure(ExtraneousAfterRight);
  }

  /** From `A/B` at the second slash, with nothing cached under `A/B`: the chain step interns `A/B`, as written too. */
  lemma ChainStepFresh()
    ensures Loop(ABC, 0, 3, false, Lassoc, S2, T2) == Loop(ABC, 0, 4, false, Lassoc, S4, TAB)
    ensures LoopAsWritten(ABC, 0, 3, false, Lassoc, S2, T2) == LoopAsWritten(ABC, 0, 4, false, Lassoc, S4, TAB)
  {
    PrefixTexts();
  }

  /** As written, too, `C` and the end give `(A/B)/C`, cached under `A/B/C`. */
  lemma ChainEndAsWritten()
    ensures LoopAsWritten(ABC, 0, 4, false, Lassoc, S4, TAB) == Outcome(Success((ABxC, 5)), TABC)
  {
    PrefixTexts();
    assert IsAtomText("C");
    var t' := TAB[("C", false) := Atom("C")];
    assert LoopAsWritten(ABC, 0, 4, false, Lassoc, S4, TAB) == LoopAsWritten(ABC, 0, 5, false, Lassoc, S4.(right := Some(Atom("C"))), t');
  }

  /**
   * From an empty table, a left-associative `from_str("A/B/C")` reads
   * `(A/B)/C` and leaves `TABC`, in the code as written as in the model:
   * no chain prefix is cached, so the chain step interns `A/B`.
   */
  lemma ChainTable()
    ensures FromStr("A/B/C", Lassoc, map[]) == Parsed(Success(ABxC), TABC)
    ensures FromStrAsWritten("A/B/C", Lassoc, map[]) == Parsed(Success(ABxC), TABC)
  {
    TokensABC();
    assert Level(ABC, 0, false, Lassoc, map[]) == Loop(ABC, 0, 0, false, Lassoc, Start, map[]);
    assert LevelAsWritten(ABC, 0, false, Lassoc, map[]) == LoopAsWritten(ABC, 0, 0, false, Lassoc, Start, map[]);
    FirstSlash(ABC, Lassoc, map[]);
    SecondAtom(ABC, Lassoc, map[("A", false) := A]);
    assert map[("A", false) := A][("B", false) := B] == T2;
    ChainStepFresh();
    ChainEnd();
    ChainEndAsWritten();
  }

  /** `TABC` is consistent with full parenthesisation: `A/B/C` renders no tree there. */
  lemma FullConsistent()
    ensures Consistent(TABC, Default)
  {
    PrefixConsistent(false);
    FullRejectsABC();
    InternHarmless(TAB[("C", false) := Atom("C")], Default, "A/B/C", ABxC);
  }

  /** `TABC` is consistent with left-associative notation: `A/B/C` is the rendering of `(A/B)/C`. */
  lemma LassocConsistent()
    ensures Consistent(TABC, Lassoc)
  {
    PrefixConsistent(true);
    ChainRenderings();
    ChainWellFormed();
    assert Lassoc == Config(true, false, true);
    InternConsistent(TAB[("C", false) := Atom("C")], Lassoc, ABxC);
  }

  /**
   * `TABC`, the table a left-associative `from_str("A/B/C")` leaves
   * (`ChainTable`), holds `(A/B)/C` under `A/B/C`, which is not that tree's
   * fully parenthesised rendering `(A/B)/C`. The table is still consistent
   * with both notations, so every rendering in either of them still reads
   * back from it.
   */
  lemma ChainTableConsistent()
    ensures ToStr(TABC[("A/B/C", false)], false, false) != "A/B/C"
    ensures forall c :: WellFormed(c) ==> FromStr(ToStr(c, false, false), Default, TABC).res == Success(c)
    ensures forall c :: WellFormed(c) ==> FromStr(ToStr(c, true, false), Lassoc, TABC).res == Success(c)
  {
    ChainRenderings();
    FullConsistent();
    RoundTripIffConsistent(Default, TABC);
    LassocConsistent();
    RoundTripIffConsistent(Lassoc, TABC);
  }

  const PAB := [LParen, AtomTok("A"), RParen, SlashTok(Fwd), AtomTok("B")]
  const TPAB := T2[("(A)/B", false) := AB]

  lemma TokensPAB()
    ensures Tokenize("(A)/B") == PAB
  {
    assert "(A)/B"[1..] == "A)/B" && "A)/B"[1..] == ")/B" && ")/B"[1..] == "/B";
    assert "/B"[1..] == "B" && "B"[1..] == "";
  }

  /** The texts of the level inside the parentheses and of the whole of `(A)/B`. */
  lemma PABTexts()
    ensures SliceText(PAB, 1, 2) == "A" && SliceText(PAB, 0, 5) == "(A)/B"
  {
    assert PAB[1..2] == [AtomTok("A")] && [AtomTok("A")][1..] == [];
    assert PAB[0..5] == PAB;
    assert PAB[4..][1..] == [];
    assert Join(PAB[4..]) == "B";
    assert PAB[3..][1..] == PAB[4..];
    assert Join(PAB[3..]) == "/B";
    assert PAB[2..][1..] == PAB[3..];
    assert Join(PAB[2..]) == ")/B";
    assert PAB[1..][1..] == PAB[2..];
    assert Join(PAB[1..]) == "A)/B";
  }

  /** The level inside `(A)` reads the atom and interns it under `A`. */
  lemma ParenA()
    ensures Level(PAB, 1, true, Default, map[]) == Outcome(Success((A, 2)), map[("A", false) := A])
  {
    PABTexts();
    assert IsAtomText("A");
    assert Level(PAB, 1, true, Default, map[]) == Loop(PAB, 1, 1, true, Default, Start, map[]);
    assert Loop(PAB, 1, 1, true, Default, Start, map[]) == Loop(PAB, 1, 2, true, Default, S0, map[]);
  }

  /** `(A)` then `/`: the parenthesised atom becomes `left` without being interned again. */
  lemma ParenOperand()
    ensures Loop(PAB, 0, 0, false, Default, Start, map[]) == Loop(PAB, 0, 4, false, Default, S1, map[("A", false) := A])
  {
    ParenA();
    var t1 := map[("A", false) := A];
    assert Loop(PAB, 0, 0, false, Default, Start, map[]) == Place(PAB, 0, 2, false, Default, Start, t1, TreeRoot(A));
    assert Loop(PAB, 0, 3, false, Default, State(TreeRoot(A), None, None), t1) == Loop(PAB, 0, 4, false, Default, S1, t1);
  }

  /** Then `B` and the end: `A/B`, cached under `(A)/B`. */
  lemma ParenEnd()
    ensures Loop(PAB, 0, 4, false, Default, S1, map[("A", false) := A]) == Outcome(Success((AB, 5)), TPAB)
  {
    PABTexts();
    assert IsAtomText("B");
    assert map[("A", false) := A][("B", false) := B] == T2;
    assert Loop(PAB, 0, 4, false, Default, S1, map[("A", false) := A]) == Loop(PAB, 0, 5, false, Default, S2, T2);
  }

  /** A strict `from_str("(A)/B")` from an empty table reads `A/B` and caches it under `(A)/B`. */
  lemma ParenStrict()
    ensures FromStr("(A)/B", Default, map[]) == Parsed(Success(AB), TPAB)
  {
    TokensPAB();
    assert Level(PAB, 0, false, Default, map[]) == Loop(PAB, 0, 0, false, Default, Start, map[]);
    ParenOperand();
    ParenEnd();
  }

  /**
   * The table a strict `from_str("(A)/B")` leaves holds `A/B` under `(A)/B`,
   * which is not its rendering `A/B`; it is still consistent with full
   * parenthesisation, so every rendering still reads back from it.
   */
  lemma ParenTableConsistent()
    ensures FromStr("(A)/B", Default, map[]).table == TPAB
    ensures ToStr(TPAB[("(A)/B", false)], false, false) != "(A)/B"
    ensures forall c :: WellFormed(c) ==> FromStr(ToStr(c, false, false), Default, TPAB).res == Success(c)
  {
    ParenStrict();
    PairRendering(false);
    AtomsConsistent(false);
    InternHarmless(T2, Default, "(A)/B", AB);
    RoundTripIffConsistent(Default, TPAB);
  }
}
