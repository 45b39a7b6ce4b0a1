/**
 * The immutable category tree of categorial grammar: an atom, or a slash
 * (`/` forward, `\` backward) over a result and an argument category.
 * Construction-time validation, the structural metrics and `get_arg`.
 */
module CategoryTree {
  import opened Wrappers
  import opened Text

  datatype Slash = Fwd | Bwd

  datatype Cat = Atom(root: string) | Complex(slash: Slash, result: Cat, argument: Cat)

  /** The text of a slash: "/" or "\". */
  function SlashText(s: Slash): (t: string)
    ensures |t| == 1
  {
    if s == Fwd then "/" else "\\"
  }

  /** The `root` field: the atom's text, or the slash of a complex category. */
  function Root(c: Cat): string {
    if c.Atom? then c.root else SlashText(c.slash)
  }

  /** The `result` field (None for an atom). */
  function ResultOf(c: Cat): Option<Cat> {
    if c.Atom? then None else Some(c.result)
  }

  /** The `argument` field (None for an atom). */
  function ArgumentOf(c: Cat): Option<Cat> {
    if c.Atom? then None else Some(c.argument)
  }

  /** The characters that separate atoms: parentheses and slashes. */
  predicate IsDelimiter(ch: char) {
    ch == '(' || ch == ')' || ch == '/' || ch == '\\'
  }

  /** What `atom_re` accepts: non-empty, no whitespace, slash or parenthesis. */
  predicate IsAtomText(s: string) {
    |s| > 0 && forall k :: 0 <= k < |s| ==> !IsSpace(s[k]) && !IsDelimiter(s[k])
  }

  /** Every atom of the tree passes `atom_re` (what construction guarantees). */
  predicate WellFormed(c: Cat) {
    match c
    case Atom(a) => IsAtomText(a)
    case Complex(_, r, a) => WellFormed(r) && WellFormed(a)
  }

  datatype CatError =
    | ArgumentWithoutResult
    | ResultWithoutArgument
    | InvalidAtom(text: string)
    | InvalidComplexRoot(text: string)

  /**
   * The dataclass constructor with its `__post_init__` validation: a node is
   * atomic exactly when `result` is absent, an atom's text must pass
   * `atom_re`, and a complex node's root must be "/" or "\".
   */
  function New(root: string, result: Option<Cat>, argument: Option<Cat>): (r: Result<Cat, CatError>)
    ensures r.Success? <==>
              (result.None? && argument.None? && IsAtomText(root))
              || (result.Some? && argument.Some? && (root == "/" || root == "\\"))
    ensures r.Success? ==>
              Root(r.value) == root && ResultOf(r.value) == result && ArgumentOf(r.value) == argument
    ensures r.Success? ==> (r.value.Atom? <==> result.None?)
  {
    if result.None? then
      if argument.Some? then Failure(ArgumentWithoutResult)
      else if !IsAtomText(root) then Failure(InvalidAtom(root))
      else Success(Atom(root))
    else if argument.None? then Failure(ResultWithoutArgument)
    else if root == "/" then Success(Complex(Fwd, result.value, argument.value))
    else if root == "\\" then Success(Complex(Bwd, result.value, argument.value))
    else Failure(InvalidComplexRoot(root))
  }

  /** Reconstructing a node from its own fields gives the node back. */
  lemma NewOfFields(c: Cat)
    requires WellFormed(c)
    ensures New(Root(c), ResultOf(c), ArgumentOf(c)) == Success(c)
  {
  }

  /** `arity`: the number of arguments before the target is reached. */
  function Arity(c: Cat): (n: nat)
    ensures n == 0 <==> c.Atom?
  {
    if c.Atom? then 0 else Arity(c.result) + 1
  }

  /** `__len__`: the number of atomic leaves. */
  function Len(c: Cat): (n: nat)
    ensures n >= 1
    ensures c.Complex? ==> n >= 2
  {
    if c.Atom? then 1 else Len(c.result) + Len(c.argument)
  }

  /** `size`: the number of nodes; a binary tree has one fewer inner node than leaves. */
  function Size(c: Cat): (n: nat)
    ensures n == 2 * Len(c) - 1
  {
    if c.Atom? then 1 else Size(c.result) + Size(c.argument) + 1
  }

  /** `degree`: tree height plus one; bounded by the leaf count and above the arity. */
  function Degree(c: Cat): (n: nat)
    ensures 1 <= n <= Len(c)
    ensures Arity(c) < n
  {
    if c.Atom? then 1
    else
      var dr, da := Degree(c.result), Degree(c.argument);
      (if dr >= da then dr else da) + 1
  }

  /** `order`: zero exactly for atoms, and always below the degree. */
  function Order(c: Cat): (n: nat)
    ensures n == 0 <==> c.Atom?
    ensures n < Degree(c)
  {
    if c.Atom? then 0
    else
      var or, oa := Order(c.result), Order(c.argument) + 1;
      if or >= oa then or else oa
  }

  /** The category reached after `k` steps along `result` links. */
  function ResultPow(c: Cat, k: nat): (r: Cat)
    requires k <= Arity(c)
    ensures Arity(r) == Arity(c) - k
  {
    if k == 0 then c else ResultPow(c.result, k - 1)
  }

  /** The atomic leaf reached by following `result` links. */
  function TargetCat(c: Cat): (t: Cat)
    ensures t.Atom?
    ensures t == ResultPow(c, Arity(c))
    ensures WellFormed(c) ==> WellFormed(t)
  {
    if c.Atom? then c else TargetCat(c.result)
  }

  /** The text of the target atom (the target leaf's root). */
  function TargetAtom(c: Cat): string {
    TargetCat(c).root
  }

  /** `target`: None for an atom, otherwise the text of the atomic final result. */
  function Target(c: Cat): (t: Option<string>)
    ensures t.None? <==> c.Atom?
    ensures t.Some? ==> t.value == TargetAtom(c)
  {
    if c.Atom? then None
    else if c.result.Atom? then Some(c.result.root)
    else Target(c.result)
  }

  datatype SlotError = InvalidSlot(slot: int, arity: nat) | NegativeSlot(slot: int)

  /**
   * `get_arg(slot)`: slot 0 is the target, slot k >= 1 the argument of the
   * subcategory of arity k. A slot above the arity raises ValueError; a
   * negative one runs off the atomic target (AttributeError).
   */
  function GetArg(c: Cat, slot: int): (r: Result<Cat, SlotError>)
    ensures r.Success? <==> 0 <= slot <= Arity(c)
    ensures slot > Arity(c) ==> r == Failure(InvalidSlot(slot, Arity(c)))
    ensures r.Success? && slot == 0 ==> r.value == TargetCat(c)
    ensures r.Success? && slot > 0 ==> r.value == ResultPow(c, Arity(c) - slot).argument
  {
    if slot > Arity(c) then Failure(InvalidSlot(slot, Arity(c)))
    else if slot == Arity(c) then Success(if slot != 0 then c.argument else c)
    else if c.Atom? then Failure(NegativeSlot(slot))
    else GetArg(c.result, slot)
  }

  /** `get_arg(arity)` is the outermost argument, or the category itself when atomic. */
  lemma GetArgAtArity(c: Cat)
    ensures GetArg(c, Arity(c)) == Success(if c.Atom? then c else c.argument)
  {
  }
}
