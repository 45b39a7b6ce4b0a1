/**
 * The recursive-descent parser `_parse_str` over the token tuple, and the
 * `from_str` wrapper with its intern table `INSTANCES`. The table is an
 * explicit value threaded through every step: each insertion the source
 * makes (also on a run that later raises) is visible in the outcome, and the
 * sanity checks that re-read the table (a missing key, a cached tree that
 * differs from the freshly built one) are error outcomes of their own.
 */
module CategoryParser {
  import opened Wrappers
  import opened Text
  import opened CategoryTree
  import opened CategoryTokens

  /** `left_associative`, `lambek` and `strict`. */
  datatype Config = Config(lassoc: bool, lambek: bool, strict: bool)

  /** The intern table: `(category string, lambek)` to tree. */
  type Table = map<(string, bool), Cat>

  datatype ParseError =
    // MalformedCategoryError, by message
    | EmptyCategory
    | MissingLeft
    | MissingRight
    | ExtraneousClose
    | ExtraneousAfterRight
    | ExpectedSlash
    | ParenInLeftAssoc
    | ConsecutiveSlashes
    | UnclosedParen
    // ValueError from the constructor's validation of an atom
    | NotAnAtom(text: string)
    // KeyError, and AssertionError, raised by the table sanity checks
    | MissingInstance(key: string)
    | InstanceMismatch(key: string)

  /** The errors raised as `MalformedCategoryError`. */
  predicate IsMalformed(e: ParseError) {
    !(e.NotAnAtom? || e.MissingInstance? || e.InstanceMismatch?)
  }

  /** The `root` variable: unset, an atom string, a slash string, or a parenthesised tree. */
  datatype RootVal = NoRoot | AtomRoot(text: string) | SlashRoot(sl: Slash) | TreeRoot(tree: Cat)

  /** The loop variables `root`, `left`, `right`. */
  datatype State = State(root: RootVal, left: Option<Cat>, right: Option<Cat>)

  const Start := State(NoRoot, None, None)

  /** `left` is set exactly when `root` is a slash, and `right` only after `left`. */
  predicate Coherent(st: State) {
    (st.left.Some? <==> st.root.SlashRoot?) && (st.right.Some? ==> st.left.Some?)
  }

  /** A level's result (tree and the index it stopped at) and the table afterwards. */
  datatype Outcome = Outcome(res: Result<(Cat, int), ParseError>, table: Table)

  /** Every entry of `t0` is in `t1` unchanged. */
  predicate Extends(t0: Table, t1: Table) {
    forall k :: k in t0 ==> k in t1 && t1[k] == t0[k]
  }

  /**
   * The intern step `INSTANCES[key] = built` guarded by the sanity check:
   * an existing entry must equal the tree just built.
   */
  function Intern(table: Table, key: string, lambek: bool, built: Cat): (r: Result<Table, ParseError>)
    ensures r.Failure? <==> (key, lambek) in table && table[(key, lambek)] != built
    ensures r.Failure? ==> r.error == InstanceMismatch(key)
    ensures r.Success? ==> r.value == table[(key, lambek) := built] && Extends(table, r.value)
  {
    if (key, lambek) in table then
      if table[(key, lambek)] == built then Success(table) else Failure(InstanceMismatch(key))
    else Success(table[(key, lambek) := built])
  }

  /** `cls(root, left, right)`, or `cls(root, right, left)` for a Lambek backslash. */
  function Build(sl: Slash, left: Cat, right: Cat, lambek: bool): (c: Cat)
    ensures c.Complex? && c.slash == sl
  {
    if lambek && sl == Bwd then Complex(Bwd, right, left) else Complex(sl, left, right)
  }

  /** Python's `s[1:-1]`. */
  function Inner(s: string): string {
    if |s| >= 2 then s[1..|s| - 1] else ""
  }

  function Min(a: int, b: int): int { if a <= b then a else b }

  /** The text of `cat[idx:i]` (Python slicing clamps `i` to the length). */
  function SliceText(toks: seq<Tok>, idx: nat, i: int): string
    requires idx <= i
  {
    var e := Min(i, |toks|);
    if idx <= e then Join(toks[idx..e]) else ""
  }

  /** Termination measure: tokens left to read. */
  function Rem(toks: seq<Tok>, i: int): nat {
    if i < |toks| then |toks| - i else 0
  }

  /**
   * `_parse_str(cat, l_assoc, lambek, strict, idx, in_paren)`: one
   * parenthesis level starting at token `idx`.
   */
  function Level(toks: seq<Tok>, idx: nat, inParen: bool, cfg: Config, table: Table): (o: Outcome)
    decreases Rem(toks, idx), 3
    ensures o.res.Success? ==> o.res.value.1 >= idx
    ensures Extends(table, o.table)
  {
    Loop(toks, idx, idx, inParen, cfg, Start, table)
  }

  /** The `while i < len(cat)` loop at token `i`. */
  function Loop(toks: seq<Tok>, idx: nat, i: int, inParen: bool, cfg: Config, st: State, table: Table): (o: Outcome)
    requires idx <= i && Coherent(st) && (st.left.Some? ==> idx < i)
    decreases Rem(toks, i), 1
    ensures o.res.Success? ==> o.res.value.1 >= idx
    ensures Extends(table, o.table)
  {
    if i >= |toks| then
      // the loop ran to the end without a break
      if inParen && cfg.strict then Outcome(Failure(UnclosedParen), table)
      else Finish(toks, idx, i, cfg, st, table)
    else
      var t := toks[i];
      if t == RParen then
        if !inParen && cfg.strict then Outcome(Failure(ExtraneousClose), table)
        else Finish(toks, idx, i, cfg, st, table)
      else if st.right.Some? && (!cfg.lassoc || !t.SlashTok?) then
        if !inParen || cfg.strict then Outcome(Failure(ExtraneousAfterRight), table)
        else Finish(toks, idx, i - 1, cfg, st, table)   // the token is unconsumed
      else if t.SlashTok? then
        if st.root.NoRoot? then Outcome(Failure(MissingLeft), table)
        else if st.left.None? then
          if st.root.TreeRoot? then
            Loop(toks, idx, i + 1, inParen, cfg, State(SlashRoot(t.sl), Some(st.root.tree), None), table)
          else
            var a := st.root.text;
            if !IsAtomText(a) then Outcome(Failure(NotAnAtom(a)), table)
            else match Intern(table, SliceText(toks, idx, i), cfg.lambek, Atom(a))
              case Failure(e) => Outcome(Failure(e), table)
              case Success(table') =>
                Loop(toks, idx, i + 1, inParen, cfg, State(SlashRoot(t.sl), Some(Atom(a)), None), table')
        else if !cfg.lassoc || st.right.None? then Outcome(Failure(ConsecutiveSlashes), table)
        else
          var built := Build(st.root.sl, st.left.value, st.right.value, cfg.lambek);
          match Intern(table, SliceText(toks, idx, i), cfg.lambek, built)
          case Failure(e) => Outcome(Failure(e), table)
          case Success(table') =>
            Loop(toks, idx, i + 1, inParen, cfg, State(SlashRoot(t.sl), Some(built), None), table')
      else if t == LParen then
        var o := Level(toks, i + 1, true, cfg, table);
        match o.res
        case Failure(e) => Outcome(Failure(e), o.table)
        case Success((p, j)) => Place(toks, idx, j, inParen, cfg, st, o.table, TreeRoot(p))
      else
        Place(toks, idx, i, inParen, cfg, st, table, AtomRoot(t.text))
  }

  /** The operand `p` read at token `i` (an atom string or a parenthesised tree) becomes `root` or `right`. */
  function Place(toks: seq<Tok>, idx: nat, i: int, inParen: bool, cfg: Config, st: State, table: Table, p: RootVal): (o: Outcome)
    requires idx <= i && Coherent(st) && (st.left.Some? ==> idx < i)
    requires p.AtomRoot? || p.TreeRoot?
    decreases Rem(toks, i + 1), 2
    ensures o.res.Success? ==> o.res.value.1 >= idx
    ensures Extends(table, o.table)
  {
    if st.left.None? then
      if !st.root.NoRoot? then Outcome(Failure(ExpectedSlash), table)
      else if cfg.lassoc && p.TreeRoot? then Outcome(Failure(ParenInLeftAssoc), table)
      else Loop(toks, idx, i + 1, inParen, cfg, State(p, None, None), table)
    else if p.TreeRoot? then
      Loop(toks, idx, i + 1, inParen, cfg, st.(right := Some(p.tree)), table)
    else if !IsAtomText(p.text) then Outcome(Failure(NotAnAtom(p.text)), table)
    else match Intern(table, p.text, cfg.lambek, Atom(p.text))
      case Failure(e) => Outcome(Failure(e), table)
      case Success(table') => Loop(toks, idx, i + 1, inParen, cfg, st.(right := Some(Atom(p.text))), table')
  }

  /** The code after the loop: build (and intern) the level's tree, or strip redundant parentheses. */
  function Finish(toks: seq<Tok>, idx: nat, i: int, cfg: Config, st: State, table: Table): (o: Outcome)
    requires idx <= i && Coherent(st)
    ensures o.res.Success? ==> o.res.value.1 == i
    ensures Extends(table, o.table)
  {
    var text := SliceText(toks, idx, i);
    match st.root
    case NoRoot => Outcome(Failure(EmptyCategory), table)
    case TreeRoot(t) =>
      var key := Inner(text);
      if (key, cfg.lambek) !in table then Outcome(Failure(MissingInstance(key)), table)
      else if table[(key, cfg.lambek)] != t then Outcome(Failure(InstanceMismatch(key)), table)
      else Outcome(Success((t, i)), table)
    case SlashRoot(sl) =>
      if st.right.None? then Outcome(Failure(MissingRight), table)
      else
        var built := Build(sl, st.left.value, st.right.value, cfg.lambek);
        (match Intern(table, text, cfg.lambek, built)
         case Failure(e) => Outcome(Failure(e), table)
         case Success(table') => Outcome(Success((built, i)), table'))
    case AtomRoot(a) =>
      if !IsAtomText(a) then Outcome(Failure(NotAnAtom(a)), table)
      else match Intern(table, text, cfg.lambek, Atom(a))
        case Failure(e) => Outcome(Failure(e), table)
        case Success(table') => Outcome(Success((Atom(a), i)), table')
  }

  /** `from_str`'s result (the tree, or the exception) and the table afterwards. */
  datatype Parsed = Parsed(res: Result<Cat, ParseError>, table: Table)

  /**
   * `from_str(cat, left_associative, lambek, strict)`: a cached entry for
   * `(cat, lambek)` is returned as is, whatever the other flags; otherwise
   * the tokens are parsed from index 0 outside any parenthesis.
   */
  function FromStr(s: string, cfg: Config, table: Table): (p: Parsed)
    ensures (s, cfg.lambek) in table ==> p == Parsed(Success(table[(s, cfg.lambek)]), table)
    ensures Extends(table, p.table)
  {
    if (s, cfg.lambek) in table then Parsed(Success(table[(s, cfg.lambek)]), table)
    else
      var o := Level(Tokenize(s), 0, false, cfg, table);
      match o.res
      case Failure(e) => Parsed(Failure(e), o.table)
      case Success((c, _)) => Parsed(Success(c), o.table)
  }
}
