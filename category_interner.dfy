/**
 * The intern table `INSTANCES` as an explicit object, and the parser
 * `_parse_str` run the way the source runs it: a loop over the token index
 * that updates `root`, `left` and `right`, steps back one token when it
 * assumes a missing `)`, recurses into parentheses and inserts every
 * distinct substring it builds into the table. Each method is proved to
 * agree with the functional parser of `CategoryParser`, about which the
 * round-trip and error lemmas are stated.
 */
module CategoryInterner {
  import opened Wrappers
  import opened CategoryTree
  import opened CategoryTokens
  import opened CategoryPrinter
  import opened CategoryParser
  import opened CategoryRoundTrip

  /** What one token of the loop leads to: the next loop state and index, or an error. */
  datatype Step = Next(st: State, next: int) | Fail(error: ParseError)

  /** The process-wide cache of parsed categories, keyed by `(string, lambek)`. */
  class Interner {
    var instances: Table

    /** A fresh, empty table. */
    constructor ()
      ensures instances == map[]
    {
      instances := map[];
    }

    /**
     * `INSTANCES[key] = built` unless the key is present, in which case the
     * cached tree must equal the one just built (the source's sanity check).
     */
    method Insert(key: string, lambek: bool, built: Cat) returns (ok: bool)
      modifies this
      ensures var r := Intern(old(instances), key, lambek, built);
              ok == r.Success? && instances == (if ok then r.value else old(instances))
    {
      if (key, lambek) in instances {
        ok := instances[(key, lambek)] == built;
      } else {
        instances := instances[(key, lambek) := built];
        ok := true;
      }
    }

    /**
     * `_parse_str(cat, l_assoc, lambek, strict, idx, in_paren)`: parses one
     * parenthesis level from token `idx`, returning the tree and the index
     * of the token it stopped at, and leaves in the table what the source
     * leaves there, also when it raises.
     */
    method ParseStr(toks: seq<Tok>, idx: nat, inParen: bool, cfg: Config) returns (r: Result<(Cat, int), ParseError>)
      modifies this
      ensures var o := Level(toks, idx, inParen, cfg, old(instances));
              r == o.res && instances == o.table
      decreases Rem(toks, idx), 1
    {
      ghost var goal := Level(toks, idx, inParen, cfg, instances);
      var root: RootVal := NoRoot;
      var left: Option<Cat> := None;
      var right: Option<Cat> := None;
      var i: int := idx;
      var broke := false;
      while i < |toks|
        invariant idx <= i && Coherent(State(root, left, right)) && (left.Some? ==> idx < i)
        invariant Loop(toks, idx, i, inParen, cfg, State(root, left, right), instances) == goal
        decreases Rem(toks, i)
      {
        var t := toks[i];
        LoopStops(toks, idx, i, inParen, cfg, State(root, left, right), instances);
        if t == RParen {
          if !inParen && cfg.strict {
            return Failure(ExtraneousClose);
          }
          broke := true;
          break;
        }
        if right.Some? && (!cfg.lassoc || !t.SlashTok?) {
          if !inParen || cfg.strict {
            return Failure(ExtraneousAfterRight);
          }
          i := i - 1;  // the token is given back to the enclosing level
          broke := true;
          break;
        }
        var step;
        if t.SlashTok? {
          step := ReadSlash(toks, idx, i, inParen, cfg, State(root, left, right));
        } else {
          step := ReadOperand(toks, idx, i, inParen, cfg, State(root, left, right));
        }
        if step.Fail? {
          return Failure(step.error);
        }
        root, left, right, i := step.st.root, step.st.left, step.st.right, step.next;
      }
      if !broke {
        LoopEnd(toks, idx, i, inParen, cfg, State(root, left, right), instances);
      }
      if !broke && inParen && cfg.strict {
        return Failure(UnclosedParen);
      }
      r := FinishLevel(toks, idx, i, cfg, State(root, left, right));
    }

    /** A slash at token `i`: the pending operand becomes `left` (or `left`, slash and `right` are combined). */
    method ReadSlash(toks: seq<Tok>, idx: nat, i: nat, inParen: bool, cfg: Config, st: State) returns (step: Step)
      requires idx <= i < |toks| && toks[i].SlashTok? && Coherent(st) && (st.left.Some? ==> idx < i)
      requires st.right.Some? ==> cfg.lassoc
      modifies this
      ensures step.Fail? ==> Loop(toks, idx, i, inParen, cfg, st, old(instances)) == Outcome(Failure(step.error), instances)
      ensures step.Next? ==> step.next == i + 1 && Coherent(step.st) && step.st.left.Some?
      ensures step.Next? ==> Loop(toks, idx, i + 1, inParen, cfg, step.st, instances) == Loop(toks, idx, i, inParen, cfg, st, old(instances))
    {
      var sl := toks[i].sl;
      if st.root.NoRoot? {
        return Fail(MissingLeft);
      }
      if st.left.None? {
        if st.root.TreeRoot? {
          return Next(State(SlashRoot(sl), Some(st.root.tree), None), i + 1);
        }
        var a := st.root.text;
        if !IsAtomText(a) {
          return Fail(NotAnAtom(a));
        }
        var ok := Insert(SliceText(toks, idx, i), cfg.lambek, Atom(a));
        if !ok {
          return Fail(InstanceMismatch(SliceText(toks, idx, i)));
        }
        return Next(State(SlashRoot(sl), Some(Atom(a)), None), i + 1);
      }
      if !cfg.lassoc || st.right.None? {
        return Fail(ConsecutiveSlashes);
      }
      var built := Build(st.root.sl, st.left.value, st.right.value, cfg.lambek);
      var ok := Insert(SliceText(toks, idx, i), cfg.lambek, built);
      if !ok {
        return Fail(InstanceMismatch(SliceText(toks, idx, i)));
      }
      return Next(State(SlashRoot(sl), Some(built), None), i + 1);
    }

    /** An atom or a parenthesised group at token `i` becomes `root` or `right`. */
    method ReadOperand(toks: seq<Tok>, idx: nat, i: nat, inParen: bool, cfg: Config, st: State) returns (step: Step)
      requires idx <= i < |toks| && !toks[i].SlashTok? && toks[i] != RParen && Coherent(st) && (st.left.Some? ==> idx < i)
      requires st.right.None?
      modifies this
      ensures step.Fail? ==> Loop(toks, idx, i, inParen, cfg, st, old(instances)) == Outcome(Failure(step.error), instances)
      ensures step.Next? ==> i < step.next && Coherent(step.st) && (step.st.left.Some? ==> idx < step.next)
      ensures step.Next? ==> Loop(toks, idx, step.next, inParen, cfg, step.st, instances) == Loop(toks, idx, i, inParen, cfg, st, old(instances))
      decreases Rem(toks, i), 0
    {
      var p: RootVal;
      var j := i;
      if toks[i] == LParen {
        var nested := ParseStr(toks, i + 1, true, cfg);
        if nested.Failure? {
          return Fail(nested.error);
        }
        p, j := TreeRoot(nested.value.0), nested.value.1;
      } else {
        p := AtomRoot(toks[i].text);
      }
      step := PlaceOperand(toks, idx, j, inParen, cfg, st, p);
    }

    /** `p` read at token `i` becomes `root` (first operand) or `right` (interning an atom). */
    method PlaceOperand(toks: seq<Tok>, idx: nat, i: int, inParen: bool, cfg: Config, st: State, p: RootVal) returns (step: Step)
      requires idx <= i && Coherent(st) && (st.left.Some? ==> idx < i) && st.right.None?
      requires p.AtomRoot? || p.TreeRoot?
      modifies this
      ensures step.Fail? ==> CategoryParser.Place(toks, idx, i, inParen, cfg, st, old(instances), p) == Outcome(Failure(step.error), instances)
      ensures step.Next? ==> step.next == i + 1 && Coherent(step.st) && (step.st.left.Some? ==> idx < step.next)
      ensures step.Next? ==> Loop(toks, idx, i + 1, inParen, cfg, step.st, instances) == CategoryParser.Place(toks, idx, i, inParen, cfg, st, old(instances), p)
    {
      if st.left.None? {
        if !st.root.NoRoot? {
          return Fail(ExpectedSlash);
        }
        if cfg.lassoc && p.TreeRoot? {
          return Fail(ParenInLeftAssoc);
        }
        return Next(State(p, None, None), i + 1);
      }
      if p.TreeRoot? {
        return Next(st.(right := Some(p.tree)), i + 1);
      }
      if !IsAtomText(p.text) {
        return Fail(NotAnAtom(p.text));
      }
      var ok := Insert(p.text, cfg.lambek, Atom(p.text));
      if !ok {
        return Fail(InstanceMismatch(p.text));
      }
      return Next(st.(right := Some(Atom(p.text))), i + 1);
    }

    /** The code after the loop of `_parse_str`: build and intern the level's tree, or strip redundant parentheses. */
    method FinishLevel(toks: seq<Tok>, idx: nat, i: int, cfg: Config, st: State) returns (r: Result<(Cat, int), ParseError>)
      requires idx <= i && Coherent(st)
      modifies this
      ensures var o := Finish(toks, idx, i, cfg, st, old(instances));
              r == o.res && instances == o.table
    {
      var text := SliceText(toks, idx, i);
      match st.root
      case NoRoot =>
        return Failure(EmptyCategory);
      case TreeRoot(t) =>
        var key := Inner(text);
        if (key, cfg.lambek) !in instances {
          return Failure(MissingInstance(key));
        }
        if instances[(key, cfg.lambek)] != t {
          return Failure(InstanceMismatch(key));
        }
        return Success((t, i));
      case SlashRoot(sl) =>
        if st.right.None? {
          return Failure(MissingRight);
        }
        var built := Build(sl, st.left.value, st.right.value, cfg.lambek);
        var ok := Insert(text, cfg.lambek, built);
        if !ok {
          return Failure(InstanceMismatch(text));
        }
        return Success((built, i));
      case AtomRoot(a) =>
        if !IsAtomText(a) {
          return Failure(NotAnAtom(a));
        }
        var ok := Insert(text, cfg.lambek, Atom(a));
        if !ok {
          return Failure(InstanceMismatch(text));
        }
        return Success((Atom(a), i));
    }

    /**
     * `CategoryTree.from_str(cat, left_associative, lambek, strict)`: a
     * table entry for `(cat, lambek)` answers whatever the other flags are;
     * otherwise the tokens are parsed from index 0.
     */
    method FromStr(s: string, cfg: Config) returns (r: Result<Cat, ParseError>)
      modifies this
      ensures var p := CategoryParser.FromStr(s, cfg, old(instances));
              r == p.res && instances == p.table
      ensures (s, cfg.lambek) in old(instances) ==> r == Success(old(instances)[(s, cfg.lambek)])
      ensures (Supported(cfg) && Consistent(old(instances), cfg) && r.Success? && WellFormed(r.value)
               && s == ToStr(r.value, cfg.lassoc, cfg.lambek)) ==> Consistent(instances, cfg)
    {
      if (s, cfg.lambek) in instances {
        return Success(instances[(s, cfg.lambek)]);
      }
      var parsed := ParseStr(Tokenize(s), 0, false, cfg);
      if parsed.Failure? {
        return Failure(parsed.error);
      }
      r := Success(parsed.value.0);
      if Supported(cfg) && Consistent(old(instances), cfg) && WellFormed(r.value) && s == ToStr(r.value, cfg.lassoc, cfg.lambek) {
        FromStrToStr(r.value, cfg, old(instances));
      }
    }
  }

  /** The loop at a `)`, or at a token after `right`, leaves it for the code after the loop. */
  lemma LoopStops(toks: seq<Tok>, idx: nat, i: nat, inParen: bool, cfg: Config, st: State, table: Table)
    requires idx <= i < |toks| && Coherent(st) && (st.left.Some? ==> idx < i)
    ensures toks[i] == RParen ==>
      Loop(toks, idx, i, inParen, cfg, st, table)
      == if !inParen && cfg.strict then Outcome(Failure(ExtraneousClose), table) else Finish(toks, idx, i, cfg, st, table)
    ensures toks[i] != RParen && st.right.Some? && (!cfg.lassoc || !toks[i].SlashTok?) ==>
      idx <= i - 1 &&
      Loop(toks, idx, i, inParen, cfg, st, table)
      == if !inParen || cfg.strict then Outcome(Failure(ExtraneousAfterRight), table) else Finish(toks, idx, i - 1, cfg, st, table)
  {
  }

  /** The loop past the last token goes to the code after it. */
  lemma LoopEnd(toks: seq<Tok>, idx: nat, i: int, inParen: bool, cfg: Config, st: State, table: Table)
    requires idx <= i && |toks| <= i && Coherent(st) && (st.left.Some? ==> idx < i)
    ensures Loop(toks, idx, i, inParen, cfg, st, table)
            == if inParen && cfg.strict then Outcome(Failure(UnclosedParen), table) else Finish(toks, idx, i, cfg, st, table)
  {
  }
}
