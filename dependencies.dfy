/**
 * Dependency scoring: the Levenshtein alignment of two function sequences
 * (`_lev_matches`), the correctness of one dependency label under full or
 * subcategorial labelling (`dep_label_correct`), and the integer counts of
 * one sentence's score (`score_sentence`).
 *
 * The alignment is a pair of methods that fill the table `d` cell by cell
 * and then walk its back pointers with an explicit stack, as the source
 * does. They are proved to return `Matches`: the matching cells below the
 * final cell of `Table`, the table the recurrence defines. The walk is
 * reasoned about for any table whose back pointers lead towards the origin,
 * so that the distance recurrence is unfolded only where it matters.
 */
module Dependencies {
  import opened Wrappers
  import opened CategoryTree
  import opened CategoryPrinter
  import opened HeadTokens

  // The Levenshtein table.

  /** A table position `(i, j)`: the first `i` items of one sequence against the first `j` of the other. */
  type Cell = (int, int)

  /** One table entry: the distance, the back pointers in the order found, and whether the items at `(i, j)` match. */
  datatype LevState = LevState(distance: int, back: seq<Cell>, isMatch: bool)

  /** The marker appended to both sequences before alignment. */
  const End := "<end>"

  function Pad(s: seq<string>): seq<string> {
    s + [End]
  }

  function Min3(a: int, b: int, c: int): int {
    if a <= b && a <= c then a else if b <= c then b else c
  }

  /** The substitution cost of the `i`-th item of `t` against the `j`-th of `h`. */
  function Sub<T(==)>(t: seq<T>, h: seq<T>, i: nat, j: nat): nat
    requires 1 <= i <= |t| && 1 <= j <= |h|
  {
    if t[i - 1] == h[j - 1] then 0 else 1
  }

  /** The distance at `(i, j)`: `i` down the first column, `j` along the first row, otherwise the cheapest of a deletion, an insertion and a substitution. */
  function Dist<T(==)>(t: seq<T>, h: seq<T>, i: nat, j: nat): nat
    requires i <= |t| && j <= |h|
    decreases i + j, 1
  {
    if j == 0 then i
    else if i == 0 then j
    else Cheapest(t, h, i, j)
  }

  /** An inner distance is the cheapest of its three candidates. */
  lemma DistStep<T>(t: seq<T>, h: seq<T>, i: nat, j: nat)
    requires 1 <= i <= |t| && 1 <= j <= |h|
    ensures Dist(t, h, i, j) == Min3(Dist(t, h, i - 1, j) + 1, Dist(t, h, i, j - 1) + 1, Dist(t, h, i - 1, j - 1) + Sub(t, h, i, j))
  {
  }

  /** The cheapest of a deletion, an insertion and a substitution into the inner cell `(i, j)`. */
  function Cheapest<T(==)>(t: seq<T>, h: seq<T>, i: nat, j: nat): nat
    requires 1 <= i <= |t| && 1 <= j <= |h|
    decreases i + j, 0
  {
    Min3(Dist(t, h, i - 1, j) + 1, Dist(t, h, i, j - 1) + 1, Dist(t, h, i - 1, j - 1) + Sub(t, h, i, j))
  }

  /** The back pointers recorded at `(i, j)` from the three candidate distances: each neighbour attaining the minimum, deletion first, and none on the first two rows and columns. */
  function BackOf(i: int, j: int, dist: int, dDel: int, dIns: int, dSub: int): seq<Cell> {
    if i > 1 && j > 1 then
      (if dist == dDel then [(i - 1, j)] else [])
      + (if dist == dIns then [(i, j - 1)] else [])
      + (if dist == dSub then [(i - 1, j - 1)] else [])
    else []
  }

  /** The back pointers at `(i, j)`. */
  function Back<T(==)>(t: seq<T>, h: seq<T>, i: nat, j: nat): seq<Cell>
    requires i <= |t| && j <= |h|
  {
    if i > 0 && j > 0 then
      BackOf(i, j, Dist(t, h, i, j), Dist(t, h, i - 1, j) + 1, Dist(t, h, i, j - 1) + 1, Dist(t, h, i - 1, j - 1) + Sub(t, h, i, j))
    else []
  }

  /** Whether the items ending the prefixes of `c` are equal (never on the first row or column). */
  predicate IsMatch<T(==)>(t: seq<T>, h: seq<T>, c: Cell) {
    1 <= c.0 <= |t| && 1 <= c.1 <= |h| && t[c.0 - 1] == h[c.1 - 1]
  }

  /** The entry the source stores at `d[i, j]`. */
  function Entry<T(==)>(t: seq<T>, h: seq<T>, i: nat, j: nat): LevState
    requires i <= |t| && j <= |h|
  {
    LevState(Dist(t, h, i, j), Back(t, h, i, j), IsMatch(t, h, (i, j)))
  }

  predicate InTable<T>(t: seq<T>, h: seq<T>, c: Cell) {
    0 <= c.0 <= |t| && 0 <= c.1 <= |h|
  }

  function Cells<T>(t: seq<T>, h: seq<T>): set<Cell> {
    set i: nat, j: nat | i <= |t| && j <= |h| :: (i, j)
  }

  /** The whole table, one entry per cell. */
  function Table<T(==)>(t: seq<T>, h: seq<T>): map<Cell, LevState> {
    map c | c in Cells(t, h) :: Entry(t, h, c.0, c.1)
  }

  // Walking back pointers, in any table whose pointers lead towards the origin.

  /** `b` is an entry of `d` strictly nearer the origin than `c`. */
  predicate Points(d: map<Cell, LevState>, c: Cell, b: Cell) {
    b in d && 0 <= b.0 && 0 <= b.1 && b.0 + b.1 < c.0 + c.1
  }

  /** `c` is an entry of `d` with no negative coordinate. */
  predicate Key(d: map<Cell, LevState>, c: Cell) {
    c in d && 0 <= c.0 && 0 <= c.1
  }

  /** Every entry has at most three back pointers, each pointing nearer the origin. */
  predicate Linked(d: map<Cell, LevState>) {
    forall c, k :: c in d && 0 <= k < |d[c].back| ==> |d[c].back| <= 3 && Points(d, c, d[c].back[k])
  }

  /** The cells reachable from `c` by following one or more back pointers. */
  function Below(d: map<Cell, LevState>, c: Cell): set<Cell>
    requires Linked(d) && Key(d, c)
    decreases c.0 + c.1, 1
  {
    Under(d, c, d[c].back)
  }

  /** The pointers `cs` of `c` and what lies below them. */
  function Under(d: map<Cell, LevState>, c: Cell, cs: seq<Cell>): set<Cell>
    requires Linked(d) && 0 <= c.0 && 0 <= c.1
    requires forall k :: 0 <= k < |cs| ==> Points(d, c, cs[k])
    decreases c.0 + c.1, 0, |cs|
  {
    if |cs| == 0 then {}
    else
      var b := cs[|cs| - 1];
      assert Points(d, c, b);
      Under(d, c, cs[..|cs| - 1]) + {b} + Below(d, b)
  }

  /** The cells a stack stands for: each one and what lies below it. */
  function Reach(d: map<Cell, LevState>, cs: seq<Cell>): set<Cell>
    requires Linked(d)
    requires forall k :: 0 <= k < |cs| ==> Key(d, cs[k])
  {
    if |cs| == 0 then {}
    else
      var c := cs[|cs| - 1];
      assert Key(d, c);
      Reach(d, cs[..|cs| - 1]) + {c} + Below(d, c)
  }

  /** The 0-based positions matched at the cells of `s`. */
  function Harvest(d: map<Cell, LevState>, s: set<Cell>): set<Cell> {
    set c | c in s && c in d && d[c].isMatch :: (c.0 - 1, c.1 - 1)
  }

  /** What `_lev_matches(tru, hyp)` returns: the matching cells below the final cell of the padded table. */
  function Matches(tru: seq<string>, hyp: seq<string>): set<Cell> {
    var t, h := Pad(tru), Pad(hyp);
    TableShape(t, h);
    assert InTable(t, h, (|t|, |h|));
    Harvest(Table(t, h), Below(Table(t, h), (|t|, |h|)))
  }

  // The source's two passes.

  /** The table is filled at `(i, j)` as `Entry` says. */
  predicate Has<T(==)>(d: map<Cell, LevState>, t: seq<T>, h: seq<T>, i: nat, j: nat)
    requires i <= |t| && j <= |h|
  {
    (i, j) in d && d[(i, j)] == Entry(t, h, i, j)
  }

  /** The forward pass: the first column, the first row, then every cell from its three neighbours. */
  method FillTable<T(==)>(t: seq<T>, h: seq<T>) returns (d: map<Cell, LevState>)
    ensures d == Table(t, h)
  {
    d := map[];
    for i := 0 to |t| + 1
      invariant forall c :: c in d ==> InTable(t, h, c)
      invariant forall a: nat :: a < i ==> Has(d, t, h, a, 0)
    {
      ghost var d0 := d;
      d := d[(i, 0) := LevState(i, [], false)];
      forall a: nat | a <= i
        ensures Has(d, t, h, a, 0)
      {
        if a < i {
          assert Has(d0, t, h, a, 0);
        }
      }
    }
    for j := 1 to |h| + 1
      invariant forall c :: c in d ==> InTable(t, h, c)
      invariant forall a: nat :: a <= |t| ==> Has(d, t, h, a, 0)
      invariant forall b: nat :: 1 <= b < j ==> Has(d, t, h, 0, b)
    {
      ghost var d0 := d;
      d := d[(0, j) := LevState(j, [], false)];
      forall a: nat | a <= |t|
        ensures Has(d, t, h, a, 0)
      {
        assert Has(d0, t, h, a, 0);
      }
      forall b: nat | 1 <= b <= j
        ensures Has(d, t, h, 0, b)
      {
        if b < j {
          assert Has(d0, t, h, 0, b);
        }
      }
    }
    for i := 1 to |t| + 1
      invariant forall c :: c in d ==> InTable(t, h, c)
      invariant forall a: nat, b: nat :: a <= |t| && b <= |h| && (a == 0 || b == 0 || a < i) ==> Has(d, t, h, a, b)
    {
      for j := 1 to |h| + 1
        invariant forall c :: c in d ==> InTable(t, h, c)
        invariant forall a: nat, b: nat :: a <= |t| && b <= |h| && (a == 0 || b == 0 || a < i || (a == i && b < j)) ==> Has(d, t, h, a, b)
      {
        assert Has(d, t, h, i - 1, j) && Has(d, t, h, i, j - 1) && Has(d, t, h, i - 1, j - 1);
        var e := Relax(t, h, i, j, d[(i - 1, j)], d[(i, j - 1)], d[(i - 1, j - 1)]);
        ghost var d0 := d;
        d := d[(i, j) := e];
        forall a: nat, b: nat | a <= |t| && b <= |h| && (a == 0 || b == 0 || a < i || (a == i && b <= j))
          ensures Has(d, t, h, a, b)
        {
          if (a, b) != (i, j) {
            assert Has(d0, t, h, a, b);
          }
        }
      }
    }
    FilledIsTable(d, t, h);
  }

  /** The body of the inner loop: the entry at `(i, j)` from the entries of its three neighbours. */
  method Relax<T(==)>(t: seq<T>, h: seq<T>, i: nat, j: nat, above: LevState, left: LevState, diag: LevState) returns (e: LevState)
    requires 1 <= i <= |t| && 1 <= j <= |h|
    requires above == Entry(t, h, i - 1, j) && left == Entry(t, h, i, j - 1) && diag == Entry(t, h, i - 1, j - 1)
    ensures e == Entry(t, h, i, j)
  {
    var sub := if t[i - 1] == h[j - 1] then 0 else 1;
    var dDel := above.distance + 1;
    var dIns := left.distance + 1;
    var dSub := diag.distance + sub;
    var dist := Min3(dDel, dIns, dSub);
    assert dist == Dist(t, h, i, j) && sub == Sub(t, h, i, j) by {
      DistStep(t, h, i, j);
    }
    var back := BackPointers(i, j, dist, dDel, dIns, dSub);
    e := LevState(dist, back, sub == 0);
  }

  /** The back pointers at `(i, j)`, appended one neighbour at a time. */
  method BackPointers(i: int, j: int, dist: int, dDel: int, dIns: int, dSub: int) returns (back: seq<Cell>)
    ensures back == BackOf(i, j, dist, dDel, dIns, dSub)
  {
    back := [];
    if i > 1 && j > 1 {
      if dist == dDel {
        back := back + [(i - 1, j)];
      }
      if dist == dIns {
        back := back + [(i, j - 1)];
      }
      if dist == dSub {
        back := back + [(i - 1, j - 1)];
      }
    }
  }

  /** The weight of a stack: four to the power `i + j` per cell, so that replacing a cell by its back pointers lightens it. */
  function Weight(cs: seq<Cell>): nat {
    if |cs| == 0 then 0
    else Weight(cs[..|cs| - 1]) + Pow4(Height(cs[|cs| - 1]))
  }

  /** How far a cell is from the origin; cells of the table are never negative. */
  function Height(c: Cell): nat {
    if c.0 + c.1 < 0 then 0 else c.0 + c.1
  }

  function Pow4(n: nat): nat {
    if n == 0 then 1 else 4 * Pow4(n - 1)
  }

  /**
   * `_lev_matches(tru, hyp)`: the forward pass, then a stack seeded with the
   * final cell's back pointers; each popped cell that matches contributes
   * its 0-based positions, and its own back pointers are pushed.
   */
  method LevMatches(tru: seq<string>, hyp: seq<string>) returns (levMatches: set<Cell>)
    ensures levMatches == Matches(tru, hyp)
  {
    var t, h := Pad(tru), Pad(hyp);
    var d := FillTable(t, h);
    TableShape(t, h);
    var final := (|t|, |h|);
    assert InTable(t, h, final);
    levMatches := Backtrack(d, final);
  }

  /** The backward pass, in any table whose back pointers lead towards the origin: the matches below `final`. */
  method Backtrack(d: map<Cell, LevState>, final: Cell) returns (levMatches: set<Cell>)
    requires Linked(d) && Key(d, final)
    ensures levMatches == Harvest(d, Below(d, final))
  {
    var stack := d[final].back;
    UnderIsReach(d, final, stack);
    levMatches := {};
    while |stack| > 0
      invariant forall k :: 0 <= k < |stack| ==> Key(d, stack[k])
      invariant levMatches + Harvest(d, Reach(d, stack)) == Harvest(d, Below(d, final))
      decreases Weight(stack)
    {
      var c := stack[|stack| - 1];
      var rest := stack[..|stack| - 1];
      assert stack == rest + [c];
      var state := d[c];
      PopStep(d, rest, c);
      if state.isMatch {
        levMatches := levMatches + {(c.0 - 1, c.1 - 1)};
      }
      stack := rest + state.back;
    }
  }

  // Facts the two passes rely on.

  /** A map filled at every cell of the table, and nowhere else, is the table. */
  lemma FilledIsTable<T>(d: map<Cell, LevState>, t: seq<T>, h: seq<T>)
    requires forall c :: c in d ==> InTable(t, h, c)
    requires forall a: nat, b: nat :: a <= |t| && b <= |h| ==> Has(d, t, h, a, b)
    ensures d == Table(t, h)
  {
    forall c | c in Cells(t, h)
      ensures c in d && d[c] == Table(t, h)[c]
    {
      assert Has(d, t, h, c.0, c.1);
    }
    forall c | c in d
      ensures c in Cells(t, h)
    {
      assert InTable(t, h, c);
      var i: nat, j: nat := c.0, c.1;
      assert (i, j) in Cells(t, h);
    }
  }

  /** The table has an entry, as `Entry` says, exactly at the cells, and its back pointers lead towards the origin, off the first row and column. */
  lemma TableShape<T>(t: seq<T>, h: seq<T>)
    ensures forall i: nat, j: nat :: i <= |t| && j <= |h| ==> (i, j) in Table(t, h) && Table(t, h)[(i, j)] == Entry(t, h, i, j)
    ensures forall c :: c in Table(t, h) <==> InTable(t, h, c)
    ensures Linked(Table(t, h))
    ensures forall c, k :: c in Table(t, h) && 0 <= k < |Table(t, h)[c].back| ==> 1 <= Table(t, h)[c].back[k].0 && 1 <= Table(t, h)[c].back[k].1
  {
    var d := Table(t, h);
    forall i: nat, j: nat | i <= |t| && j <= |h|
      ensures (i, j) in d && d[(i, j)] == Entry(t, h, i, j)
    {
      assert (i, j) in Cells(t, h);
    }
    forall c | InTable(t, h, c)
      ensures c in d
    {
      var i: nat, j: nat := c.0, c.1;
      assert (i, j) in Cells(t, h);
    }
    forall c, k | c in d && 0 <= k < |d[c].back|
      ensures |d[c].back| <= 3 && Points(d, c, d[c].back[k]) && 1 <= d[c].back[k].0 && 1 <= d[c].back[k].1
    {
      BackCells(t, h, c.0, c.1);
      var b := d[c].back[k];
      assert InTable(t, h, b);
    }
  }

  /** Each back pointer is a neighbour of its cell, off the first row and column. */
  lemma BackCells<T>(t: seq<T>, h: seq<T>, i: nat, j: nat)
    requires i <= |t| && j <= |h|
    ensures |Back(t, h, i, j)| <= 3
    ensures forall k :: 0 <= k < |Back(t, h, i, j)| ==> i > 1 && j > 1 && Neighbour(i, j, Back(t, h, i, j)[k])
  {
  }

  /** `c` is the deletion, insertion or substitution neighbour of `(i, j)`. */
  predicate Neighbour(i: int, j: int, c: Cell) {
    c == (i - 1, j) || c == (i, j - 1) || c == (i - 1, j - 1)
  }

  /** The pointers of a cell and what lies below them are what those pointers stand for as a stack. */
  lemma {:induction false} UnderIsReach(d: map<Cell, LevState>, c: Cell, cs: seq<Cell>)
    requires Linked(d) && 0 <= c.0 && 0 <= c.1
    requires forall k :: 0 <= k < |cs| ==> Points(d, c, cs[k])
    ensures forall k :: 0 <= k < |cs| ==> Key(d, cs[k])
    ensures Under(d, c, cs) == Reach(d, cs)
    decreases |cs|
  {
    if |cs| > 0 {
      UnderIsReach(d, c, cs[..|cs| - 1]);
    }
  }

  lemma {:induction false} ReachAppend(d: map<Cell, LevState>, a: seq<Cell>, b: seq<Cell>)
    requires Linked(d)
    requires forall k :: 0 <= k < |a| ==> Key(d, a[k])
    requires forall k :: 0 <= k < |b| ==> Key(d, b[k])
    ensures Reach(d, a + b) == Reach(d, a) + Reach(d, b)
    decreases |b|
  {
    if |b| > 0 {
      assert (a + b)[..|a + b| - 1] == a + b[..|b| - 1];
      ReachAppend(d, a, b[..|b| - 1]);
    } else {
      assert a + b == a;
    }
  }

  lemma HarvestUnion(d: map<Cell, LevState>, a: set<Cell>, b: set<Cell>)
    ensures Harvest(d, a + b) == Harvest(d, a) + Harvest(d, b)
  {
  }

  /** Popping `c` and pushing its back pointers keeps what the stack stands for, less `c` itself, and lightens the stack. */
  lemma PopStep(d: map<Cell, LevState>, rest: seq<Cell>, c: Cell)
    requires Linked(d) && Key(d, c)
    requires forall k :: 0 <= k < |rest| ==> Key(d, rest[k])
    ensures forall k :: 0 <= k < |rest + d[c].back| ==> Key(d, (rest + d[c].back)[k])
    ensures forall k :: 0 <= k < |rest + [c]| ==> Key(d, (rest + [c])[k])
    ensures Harvest(d, Reach(d, rest + [c]))
            == (if d[c].isMatch then {(c.0 - 1, c.1 - 1)} else {}) + Harvest(d, Reach(d, rest + d[c].back))
    ensures Weight(rest + d[c].back) < Weight(rest + [c])
  {
    PopReach(d, rest, c);
    var r, below := Reach(d, rest), Below(d, c);
    var found := if d[c].isMatch then {(c.0 - 1, c.1 - 1)} else {};
    calc {
      Harvest(d, Reach(d, rest + [c]));
      Harvest(d, r + {c} + below);
      { HarvestUnion(d, r + {c}, below); HarvestUnion(d, r, {c}); }
      Harvest(d, r) + Harvest(d, {c}) + Harvest(d, below);
      { HarvestOne(d, c); }
      Harvest(d, r) + found + Harvest(d, below);
      { HarvestUnion(d, r, below); }
      found + Harvest(d, r + below);
      found + Harvest(d, Reach(d, rest + d[c].back));
    }
    PopWeight(d[c].back, rest, c);
  }

  /** A single cell contributes its 0-based positions exactly when it matches. */
  lemma HarvestOne(d: map<Cell, LevState>, c: Cell)
    requires c in d
    ensures Harvest(d, {c}) == if d[c].isMatch then {(c.0 - 1, c.1 - 1)} else {}
  {
  }

  lemma PopReach(d: map<Cell, LevState>, rest: seq<Cell>, c: Cell)
    requires Linked(d) && Key(d, c)
    requires forall k :: 0 <= k < |rest| ==> Key(d, rest[k])
    ensures forall k :: 0 <= k < |rest + d[c].back| ==> Key(d, (rest + d[c].back)[k])
    ensures forall k :: 0 <= k < |rest + [c]| ==> Key(d, (rest + [c])[k])
    ensures Reach(d, rest + [c]) == Reach(d, rest) + {c} + Below(d, c)
    ensures Reach(d, rest + d[c].back) == Reach(d, rest) + Below(d, c)
  {
    var back := d[c].back;
    UnderIsReach(d, c, back);
    ReachAppend(d, rest, back);
    ReachAppend(d, rest, [c]);
    assert [c][..0] == [];
  }

  /** Replacing `c` by at most three cells nearer the origin lightens the stack. */
  lemma PopWeight(back: seq<Cell>, rest: seq<Cell>, c: Cell)
    requires |back| <= 3
    requires forall k :: 0 <= k < |back| ==> Height(back[k]) < Height(c)
    ensures Weight(rest + back) < Weight(rest + [c])
  {
    WeightAppend(rest, back);
    var s := rest + [c];
    assert s[..|s| - 1] == rest;
    BackLighter(back, Height(c));
  }

  /** At most three cells each nearer the origin than `n` weigh less than `4^n`. */
  lemma BackLighter(back: seq<Cell>, n: nat)
    requires |back| <= 3
    requires forall k :: 0 <= k < |back| ==> Height(back[k]) < n
    ensures Weight(back) < Pow4(n)
  {
    if |back| == 0 {
      Pow4Positive(n);
    } else {
      assert Height(back[0]) < n;
      var m: nat := n - 1;
      assert Weight(back) <= |back| * Pow4(m) by {
        forall k | 0 <= k < |back|
          ensures Pow4(Height(back[k])) <= Pow4(m)
        {
          Pow4Monotone(Height(back[k]), m);
        }
        WeightBound(back, m);
      }
      ThreeLighter(|back|, m);
    }
  }

  lemma ThreeLighter(k: nat, m: nat)
    requires k <= 3
    ensures k * Pow4(m) < Pow4(m + 1)
  {
    var p := Pow4(m);
    assert Pow4(m + 1) == 4 * p;
    assert p > 0 by {
      Pow4Positive(m);
    }
    assert k * p <= 3 * p;
  }

  lemma {:induction false} Pow4Positive(n: nat)
    ensures Pow4(n) > 0
  {
    if n > 0 {
      Pow4Positive(n - 1);
    }
  }

  lemma {:induction false} WeightAppend(a: seq<Cell>, b: seq<Cell>)
    ensures Weight(a + b) == Weight(a) + Weight(b)
    decreases |b|
  {
    if |b| > 0 {
      assert (a + b)[..|a + b| - 1] == a + b[..|b| - 1];
      WeightAppend(a, b[..|b| - 1]);
    } else {
      assert a + b == a;
    }
  }

  lemma {:induction false} Pow4Monotone(m: nat, n: nat)
    requires m <= n
    ensures Pow4(m) <= Pow4(n)
    decreases n
  {
    if m < n {
      Pow4Monotone(m, n - 1);
    }
  }

  /** Cells no heavier than `4^n` weigh at most `4^n` each. */
  lemma {:induction false} WeightBound(cs: seq<Cell>, n: nat)
    requires forall k :: 0 <= k < |cs| ==> Pow4(Height(cs[k])) <= Pow4(n)
    ensures Weight(cs) <= |cs| * Pow4(n)
    decreases |cs|
  {
    if |cs| > 0 {
      WeightBound(cs[..|cs| - 1], n);
      assert (|cs| - 1) * Pow4(n) + Pow4(n) == |cs| * Pow4(n);
    }
  }

  /** A cell below another is one of the back pointers of some entry. */
  lemma {:induction false} BelowPointed(d: map<Cell, LevState>, c: Cell, x: Cell)
    requires Linked(d) && Key(d, c) && x in Below(d, c)
    ensures Key(d, x) && exists e, k :: e in d && 0 <= k < |d[e].back| && d[e].back[k] == x
    decreases c.0 + c.1
  {
    var k := UnderMember(d, c, d[c].back, x);
    var b := d[c].back[k];
    if x != b {
      BelowPointed(d, b, x);
    }
  }

  /** A cell under the pointers `cs` is one of them or lies below one of them. */
  lemma {:induction false} UnderMember(d: map<Cell, LevState>, c: Cell, cs: seq<Cell>, x: Cell) returns (k: nat)
    requires Linked(d) && 0 <= c.0 && 0 <= c.1
    requires forall k :: 0 <= k < |cs| ==> Points(d, c, cs[k])
    requires x in Under(d, c, cs)
    ensures k < |cs| && Points(d, c, cs[k]) && (x == cs[k] || x in Below(d, cs[k]))
    decreases |cs|
  {
    var b := cs[|cs| - 1];
    if x == b || x in Below(d, b) {
      k := |cs| - 1;
    } else {
      k := UnderMember(d, c, cs[..|cs| - 1], x);
    }
  }

  /** Conversely, every pointer in `cs`, and everything below it, is under `cs`. */
  lemma {:induction false} UnderHas(d: map<Cell, LevState>, c: Cell, cs: seq<Cell>, k: nat)
    requires Linked(d) && 0 <= c.0 && 0 <= c.1
    requires forall k :: 0 <= k < |cs| ==> Points(d, c, cs[k])
    requires k < |cs|
    ensures cs[k] in Under(d, c, cs) && Below(d, cs[k]) <= Under(d, c, cs)
    decreases |cs|
  {
    if k < |cs| - 1 {
      UnderHas(d, c, cs[..|cs| - 1], k);
    }
  }

  // The alignment's properties.

  /** The distance lies between the difference of the prefix lengths and the longer of them. */
  lemma {:induction false} DistBounds<T>(t: seq<T>, h: seq<T>, i: nat, j: nat)
    requires i <= |t| && j <= |h|
    ensures i - j <= Dist(t, h, i, j) && j - i <= Dist(t, h, i, j)
    ensures Dist(t, h, i, j) <= (if i < j then j else i)
    decreases i + j
  {
    if i > 0 && j > 0 {
      DistBounds(t, h, i - 1, j);
      DistBounds(t, h, i, j - 1);
      DistBounds(t, h, i - 1, j - 1);
    }
  }

  /** The distance is zero exactly when the two prefixes are equal. */
  lemma DistZero<T>(t: seq<T>, h: seq<T>, i: nat, j: nat)
    requires i <= |t| && j <= |h|
    ensures Dist(t, h, i, j) == 0 <==> i == j && t[..i] == h[..j]
  {
    DistZeroAt(t, h, i, j, Dist(t, h, i, j));
  }

  lemma {:induction false} DistZeroAt<T>(t: seq<T>, h: seq<T>, i: nat, j: nat, z: nat)
    requires i <= |t| && j <= |h| && z == Dist(t, h, i, j)
    ensures z == 0 <==> i == j && t[..i] == h[..j]
    decreases i + j
  {
    if i > 0 && j > 0 {
      var zSub := Dist(t, h, i - 1, j - 1);
      DistZeroAt(t, h, i - 1, j - 1, zSub);
      assert z == 0 <==> zSub == 0 && t[i - 1] == h[j - 1] by {
        DistBounds(t, h, i - 1, j);
        DistBounds(t, h, i, j - 1);
      }
      EqualPrefixes(t, h, i, j);
    }
  }

  /** Two non-empty prefixes are equal when their last items and what precedes them are. */
  lemma EqualPrefixes<T>(t: seq<T>, h: seq<T>, i: nat, j: nat)
    requires 0 < i <= |t| && 0 < j <= |h|
    ensures (i == j && t[..i] == h[..j]) <==> (i - 1 == j - 1 && t[..i - 1] == h[..j - 1] && t[i - 1] == h[j - 1])
  {
    assert t[..i] == t[..i - 1] + [t[i - 1]];
    assert h[..j] == h[..j - 1] + [h[j - 1]];
    if i == j && t[..i] == h[..j] {
      assert t[..i][i - 1] == t[i - 1] && h[..j][j - 1] == h[j - 1];
      assert t[..i - 1] == t[..i][..i - 1];
      assert h[..j - 1] == h[..j][..j - 1];
    }
  }

  /** Exchanging the two sequences transposes the distances. */
  lemma {:induction false} DistSymmetric<T>(t: seq<T>, h: seq<T>, i: nat, j: nat)
    requires i <= |t| && j <= |h|
    ensures Dist(t, h, i, j) == Dist(h, t, j, i)
    decreases i + j
  {
    if i > 0 && j > 0 {
      var del, ins, diag := Dist(t, h, i - 1, j), Dist(t, h, i, j - 1), Dist(t, h, i - 1, j - 1);
      DistSymmetric(t, h, i - 1, j);
      DistSymmetric(t, h, i, j - 1);
      DistSymmetric(t, h, i - 1, j - 1);
      assert Dist(h, t, j, i) == Min3(ins + 1, del + 1, diag + Sub(h, t, j, i));
    }
  }

  /**
   * The back pointers of a cell are exactly the neighbours attaining its
   * distance (a deletion or an insertion at cost one, a substitution at its
   * cost), and there is at least one, inside the table; on the first two
   * rows and columns there are none.
   */
  lemma BackAttainsMinimum<T>(t: seq<T>, h: seq<T>, i: nat, j: nat)
    requires i <= |t| && j <= |h|
    ensures i <= 1 || j <= 1 ==> Back(t, h, i, j) == []
    ensures i > 1 && j > 1 ==> |Back(t, h, i, j)| > 0
    ensures i > 1 && j > 1 ==>
              ((i - 1, j) in Back(t, h, i, j) <==> Dist(t, h, i, j) == Dist(t, h, i - 1, j) + 1)
              && ((i, j - 1) in Back(t, h, i, j) <==> Dist(t, h, i, j) == Dist(t, h, i, j - 1) + 1)
              && ((i - 1, j - 1) in Back(t, h, i, j) <==> Dist(t, h, i, j) == Dist(t, h, i - 1, j - 1) + Sub(t, h, i, j))
  {
    if i > 0 && j > 0 {
      DistStep(t, h, i, j);
    }
  }

  /**
   * Every aligned pair `(a, b)` names equal items of the padded sequences,
   * with `a` at most the length of `tru` and `b` at most that of `hyp`.
   */
  lemma MatchesAgree(tru: seq<string>, hyp: seq<string>, a: int, b: int)
    requires (a, b) in Matches(tru, hyp)
    ensures 0 <= a <= |tru| && 0 <= b <= |hyp| && Pad(tru)[a] == Pad(hyp)[b]
  {
    var t, h := Pad(tru), Pad(hyp);
    var d := Table(t, h);
    TableShape(t, h);
    var final := (|t|, |h|);
    assert InTable(t, h, final);
    var x :| x in Below(d, final) && x in d && d[x].isMatch && (a, b) == (x.0 - 1, x.1 - 1);
    BelowPointed(d, final, x);
    assert InTable(t, h, x);
    assert d[x] == Entry(t, h, x.0, x.1);
  }

  function Flip1(c: Cell): Cell {
    (c.1, c.0)
  }

  function Flip(s: set<Cell>): set<Cell> {
    set c | c in s :: Flip1(c)
  }

  /** `e` is `d` with every cell and every back pointer transposed. */
  ghost predicate Transposed(d: map<Cell, LevState>, e: map<Cell, LevState>) {
    CellsTransposed(d, e) && (forall c, b :: c in d ==> (b in d[c].back <==> Flip1(b) in e[Flip1(c)].back))
  }

  /** `e` has the transposed cells of `d`, matching where `d` matches. */
  ghost predicate CellsTransposed(d: map<Cell, LevState>, e: map<Cell, LevState>) {
    (forall c :: c in d <==> Flip1(c) in e)
    && (forall c :: c in d ==> e[Flip1(c)].isMatch == d[c].isMatch)
  }

  /** What lies below a transposed cell of a transposed table is what lay below the cell, transposed. */
  lemma {:induction false} BelowTransposed(d: map<Cell, LevState>, e: map<Cell, LevState>, c: Cell)
    requires Linked(d) && Linked(e) && Transposed(d, e) && Key(d, c)
    ensures Key(e, Flip1(c)) && Below(e, Flip1(c)) == Flip(Below(d, c))
    decreases c.0 + c.1
  {
    var c' := Flip1(c);
    forall x | x in Below(d, c)
      ensures Flip1(x) in Below(e, c')
    {
      var k := UnderMember(d, c, d[c].back, x);
      var b := d[c].back[k];
      assert Flip1(b) in e[c'].back;
      var k' :| 0 <= k' < |e[c'].back| && e[c'].back[k'] == Flip1(b);
      UnderHas(e, c', e[c'].back, k');
      if x != b {
        BelowTransposed(d, e, b);
      }
    }
    forall y | y in Below(e, c')
      ensures y in Flip(Below(d, c))
    {
      var k := UnderMember(e, c', e[c'].back, y);
      var b' := e[c'].back[k];
      var b := Flip1(b');
      assert Flip1(b) == b';
      assert b in d[c].back;
      var kk :| 0 <= kk < |d[c].back| && d[c].back[kk] == b;
      UnderHas(d, c, d[c].back, kk);
      if y != b' {
        BelowTransposed(d, e, b);
        var x :| x in Below(d, b) && y == Flip1(x);
      }
      assert Flip1(Flip1(y)) == y;
    }
  }

  /** The positions matched at transposed cells are the matched positions, transposed. */
  lemma HarvestTransposed(d: map<Cell, LevState>, e: map<Cell, LevState>, s: set<Cell>)
    requires CellsTransposed(d, e)
    ensures Harvest(e, Flip(s)) == Flip(Harvest(d, s))
  {
    forall p | p in Harvest(e, Flip(s))
      ensures p in Flip(Harvest(d, s))
    {
      var c' :| c' in Flip(s) && c' in e && e[c'].isMatch && p == (c'.0 - 1, c'.1 - 1);
      var c :| c in s && c' == Flip1(c);
      assert (c.0 - 1, c.1 - 1) in Harvest(d, s);
    }
    forall p | p in Flip(Harvest(d, s))
      ensures p in Harvest(e, Flip(s))
    {
      var q :| q in Harvest(d, s) && p == Flip1(q);
      var c :| c in s && c in d && d[c].isMatch && q == (c.0 - 1, c.1 - 1);
      assert Flip1(c) in Flip(s);
    }
  }

  /** The back pointers `y` of the exchanged table at `(j, i)` are the back pointers `x` at `(i, j)`, transposed. */
  lemma BackTransposed<T>(t: seq<T>, h: seq<T>, i: nat, j: nat, x: seq<Cell>, y: seq<Cell>)
    requires i <= |t| && j <= |h|
    requires x == Back(t, h, i, j) && y == Back(h, t, j, i)
    ensures forall b :: b in x <==> Flip1(b) in y
  {
    if i > 0 && j > 0 {
      var dist, dDel, dIns, dSub := CandidateDistances(t, h, i, j, x);
      SwappedCandidates(t, h, i, j, y, dist, dDel, dIns, dSub);
      BackOfTransposed(i, j, dist, dDel, dIns, dSub);
    }
  }

  /** The exchanged table's candidates at `(j, i)` are those at `(i, j)`, deletion and insertion exchanged. */
  lemma SwappedCandidates<T>(t: seq<T>, h: seq<T>, i: nat, j: nat, y: seq<Cell>, dist: nat, dDel: nat, dIns: nat, dSub: nat)
    requires 0 < i <= |t| && 0 < j <= |h| && y == Back(h, t, j, i)
    requires dist == Dist(t, h, i, j) && dDel == Dist(t, h, i - 1, j) + 1 && dIns == Dist(t, h, i, j - 1) + 1
    requires dSub == Dist(t, h, i - 1, j - 1) + Sub(t, h, i, j)
    ensures y == BackOf(j, i, dist, dIns, dDel, dSub)
  {
    var dist', dIns', dDel', dSub' := CandidateDistances(h, t, j, i, y);
    DistSymmetric(t, h, i, j);
    DistSymmetric(t, h, i - 1, j);
    DistSymmetric(t, h, i, j - 1);
    DistSymmetric(t, h, i - 1, j - 1);
  }

  /** The back pointers `x` at an inner cell, from the cell's distance and its three candidate distances. */
  lemma CandidateDistances<T>(t: seq<T>, h: seq<T>, i: nat, j: nat, x: seq<Cell>) returns (dist: nat, dDel: nat, dIns: nat, dSub: nat)
    requires 0 < i <= |t| && 0 < j <= |h| && x == Back(t, h, i, j)
    ensures dist == Dist(t, h, i, j) && dDel == Dist(t, h, i - 1, j) + 1 && dIns == Dist(t, h, i, j - 1) + 1
    ensures dSub == Dist(t, h, i - 1, j - 1) + Sub(t, h, i, j)
    ensures x == BackOf(i, j, dist, dDel, dIns, dSub)
  {
    dist, dDel, dIns, dSub := Dist(t, h, i, j), Dist(t, h, i - 1, j) + 1, Dist(t, h, i, j - 1) + 1, Dist(t, h, i - 1, j - 1) + Sub(t, h, i, j);
  }

  /** Transposing a cell exchanges the roles of deletion and insertion. */
  lemma BackOfTransposed(i: int, j: int, dist: int, dDel: int, dIns: int, dSub: int)
    ensures forall b :: b in BackOf(i, j, dist, dDel, dIns, dSub) <==> Flip1(b) in BackOf(j, i, dist, dIns, dDel, dSub)
  {
  }

  /** The table of the exchanged sequences is the transposed table. */
  lemma TableTransposed<T>(t: seq<T>, h: seq<T>)
    ensures Transposed(Table(t, h), Table(h, t))
  {
    var d, e := Table(t, h), Table(h, t);
    forall c | c in d
      ensures Flip1(c) in e && e[Flip1(c)].isMatch == d[c].isMatch
      ensures forall b :: b in d[c].back <==> Flip1(b) in e[Flip1(c)].back
    {
      Members(t, h, c);
      CellTransposed(t, h, c.0, c.1);
    }
    forall c | Flip1(c) in e
      ensures c in d
    {
      Members(h, t, Flip1(c));
      TableAt(t, h, c.0, c.1);
    }
  }

  /** One cell of the table and its transposed cell of the exchanged table. */
  lemma CellTransposed<T>(t: seq<T>, h: seq<T>, i: nat, j: nat)
    requires i <= |t| && j <= |h|
    ensures (i, j) in Table(t, h) && (j, i) in Table(h, t)
    ensures Table(h, t)[(j, i)].isMatch == Table(t, h)[(i, j)].isMatch
    ensures forall b :: b in Table(t, h)[(i, j)].back <==> Flip1(b) in Table(h, t)[(j, i)].back
  {
    TableAt(t, h, i, j);
    TableAt(h, t, j, i);
    BackTransposed(t, h, i, j, Table(t, h)[(i, j)].back, Table(h, t)[(j, i)].back);
  }

  /** The cells of a table are the cells inside it. */
  lemma Members<T>(t: seq<T>, h: seq<T>, c: Cell)
    ensures c in Table(t, h) <==> InTable(t, h, c)
  {
    if InTable(t, h, c) {
      var i: nat, j: nat := c.0, c.1;
      assert (i, j) in Cells(t, h);
    }
  }

  /** The entry at a cell inside a table. */
  lemma TableAt<T>(t: seq<T>, h: seq<T>, i: nat, j: nat)
    requires i <= |t| && j <= |h|
    ensures (i, j) in Table(t, h) && Table(t, h)[(i, j)] == Entry(t, h, i, j)
  {
    assert (i, j) in Cells(t, h);
  }

  /** Aligning `hyp` with `tru` gives the transposed pairs of aligning `tru` with `hyp`. */
  lemma MatchesSymmetric(tru: seq<string>, hyp: seq<string>)
    ensures Matches(hyp, tru) == Flip(Matches(tru, hyp))
  {
    var t, h := Pad(tru), Pad(hyp);
    TableShape(t, h);
    TableShape(h, t);
    TableTransposed(t, h);
    var final := (|t|, |h|);
    assert InTable(t, h, final);
    BelowTransposed(Table(t, h), Table(h, t), final);
    HarvestTransposed(Table(t, h), Table(h, t), Below(Table(t, h), final));
  }

  // Dependency labels.

  /** A dependency's label: the predicate's category and the argument slot it fills. */
  datatype Label = Label(cat: Cat, slot: int)

  /**
   * `dep_label_correct(tru, hyp, subcat_label, subcat_align)`: without
   * subcategorial labelling the labels must be equal; with it, the two
   * `get_arg` subcategories (the true one first) must be equal, and then
   * the slots must be equal or, with alignment, aligned by the Levenshtein
   * matches of the two function sequences. A slot `get_arg` rejects is the
   * error it raises.
   */
  function LabelCorrect(tru: Label, hyp: Label, subcat: bool, align: bool): (r: Result<bool, SlotError>)
    ensures !subcat ==> r == Success(tru == hyp)
    ensures subcat ==> (r.Success? <==> GetArg(tru.cat, tru.slot).Success? && GetArg(hyp.cat, hyp.slot).Success?)
    ensures subcat && r == Success(true) ==> GetArg(tru.cat, tru.slot) == GetArg(hyp.cat, hyp.slot)
    ensures subcat && r.Success? && tru.slot == hyp.slot ==> r.value == (GetArg(tru.cat, tru.slot) == GetArg(hyp.cat, hyp.slot))
  {
    if !subcat then Success(tru == hyp)
    else
      var t :- GetArg(tru.cat, tru.slot);
      var h :- GetArg(hyp.cat, hyp.slot);
      if t != h then Success(false)
      else if tru.slot == hyp.slot then Success(true)
      else if !align then Success(false)
      else Success((tru.slot, hyp.slot) in Matches(FuncSeq(tru.cat), FuncSeq(hyp.cat)))
  }

  /** Label correctness does not depend on which label is the true one. */
  lemma LabelCorrectSymmetric(tru: Label, hyp: Label, subcat: bool, align: bool)
    ensures LabelCorrect(hyp, tru, subcat, align).Success? == LabelCorrect(tru, hyp, subcat, align).Success?
    ensures LabelCorrect(tru, hyp, subcat, align).Success? ==>
              LabelCorrect(hyp, tru, subcat, align).value == LabelCorrect(tru, hyp, subcat, align).value
  {
    AlignedSymmetric(FuncSeq(tru.cat), FuncSeq(hyp.cat), tru.slot, hyp.slot);
  }

  /** A pair is aligned exactly when the exchanged pair is aligned in the exchanged sequences. */
  lemma AlignedSymmetric(tru: seq<string>, hyp: seq<string>, a: int, b: int)
    ensures (a, b) in Matches(tru, hyp) <==> (b, a) in Matches(hyp, tru)
  {
    MatchesSymmetric(tru, hyp);
    assert (a, b) in Matches(tru, hyp) <==> Flip1((a, b)) in Flip(Matches(tru, hyp));
  }

  /** A label that is fully correct is correct subcategorially, whenever its slot exists. */
  lemma FullImpliesSubcat(tru: Label, hyp: Label, align: bool)
    requires LabelCorrect(tru, hyp, false, align) == Success(true) && 0 <= tru.slot <= Arity(tru.cat)
    ensures LabelCorrect(tru, hyp, true, align) == Success(true)
  {
  }

  /** Alignment only ever adds correct labels. */
  lemma AlignOnlyAdds(tru: Label, hyp: Label)
    requires LabelCorrect(tru, hyp, true, false) == Success(true)
    ensures LabelCorrect(tru, hyp, true, true) == Success(true)
  {
  }

  /** Slots accepted by alignment alone index equal items of the padded function sequences. */
  lemma AlignedSlotsAgree(tru: Label, hyp: Label)
    requires LabelCorrect(tru, hyp, true, true) == Success(true) && tru.slot != hyp.slot
    ensures 0 <= tru.slot <= Arity(tru.cat) + 1 && 0 <= hyp.slot <= Arity(hyp.cat) + 1
    ensures Pad(FuncSeq(tru.cat))[tru.slot] == Pad(FuncSeq(hyp.cat))[hyp.slot]
  {
    MatchesAgree(FuncSeq(tru.cat), FuncSeq(hyp.cat), tru.slot, hyp.slot);
  }

  // Scoring one sentence.

  /** A dependency: the predicate's token and the argument's token. */
  datatype Edge = Edge(pred: WordToken, arg: WordToken)

  /** The integer part of `DependencyScores`. */
  datatype Counts = Counts(nTru: nat, nHyp: nat, correct: nat)

  /** Why `score_sentence` raises: an unknown labelling, or a label whose slot `get_arg` rejects. */
  datatype ScoreError = BadLabelling(labelling: string) | LabelFailed

  /** The token `("ROOT", 0)` that root dependencies hang from. */
  const RootToken := WordToken("ROOT", 0)

  /** The dependencies not hanging from the root. */
  function Unrooted(deps: map<Edge, Label>): (r: map<Edge, Label>)
    ensures forall e :: e in r ==> e.pred != RootToken && e in deps && r[e] == deps[e]
    ensures forall e :: e in deps && e.pred != RootToken ==> e in r
  {
    map e | e in deps && e.pred != RootToken :: deps[e]
  }

  predicate AllRoot(deps: map<Edge, Label>) {
    forall e :: e in deps ==> e.pred == RootToken
  }

  /** The shared edges whose labels are correct. */
  function CorrectEdges(tru: map<Edge, Label>, hyp: map<Edge, Label>, subcat: bool, align: bool): set<Edge> {
    set e | e in tru && e in hyp && LabelCorrect(tru[e], hyp[e], subcat, align) == Success(true)
  }

  /** The sentence has nothing to score: no dependencies, or a single root dependency on both sides. */
  predicate Trivial(tru: map<Edge, Label>, hyp: map<Edge, Label>) {
    (|tru| == 0 && |hyp| == 0) || (|tru| == 1 && |hyp| == 1 && AllRoot(tru) && AllRoot(hyp))
  }

  /**
   * `score_sentence(tru, hyp, labelling=…, subcat_align=…, ignore_root=…)`,
   * the counts only: root dependencies are dropped first if asked; a
   * trivial sentence counts nothing; otherwise the shared edges are counted,
   * keeping under `full` and `subcat` labelling only those whose labels are
   * correct.
   */
  function ScoreSentence(tru: map<Edge, Label>, hyp: map<Edge, Label>, labelling: Option<string>, align: bool, ignoreRoot: bool): (r: Result<Counts, ScoreError>)
    ensures r.Success? ==> r.value.correct <= r.value.nTru && r.value.correct <= r.value.nHyp
  {
    var t := if ignoreRoot then Unrooted(tru) else tru;
    var h := if ignoreRoot then Unrooted(hyp) else hyp;
    if Trivial(t, h) then Success(Counts(0, 0, 0))
    else
      var common := t.Keys * h.Keys;
      CommonBounded(t, h);
      match labelling
      case None => Success(Counts(|t|, |h|, |common|))
      case Some(l) =>
        if l != "full" && l != "subcat" then Failure(BadLabelling(l))
        else if exists e :: e in common && LabelCorrect(t[e], h[e], l == "subcat", align).Failure? then Failure(LabelFailed)
        else
          SubsetSize(CorrectEdges(t, h, l == "subcat", align), common);
          Success(Counts(|t|, |h|, |CorrectEdges(t, h, l == "subcat", align)|))
  }

  lemma {:induction false} SubsetSize<T>(a: set<T>, b: set<T>)
    requires a <= b
    ensures |a| <= |b|
    decreases |b|
  {
    if a != {} {
      var x :| x in a;
      SubsetSize(a - {x}, b - {x});
    }
  }

  lemma CommonBounded(t: map<Edge, Label>, h: map<Edge, Label>)
    ensures |t.Keys * h.Keys| <= |t| && |t.Keys * h.Keys| <= |h|
  {
    SubsetSize(t.Keys * h.Keys, t.Keys);
    SubsetSize(t.Keys * h.Keys, h.Keys);
  }

  /** With `ignore_root`, scoring is scoring the dependencies not hanging from the root. */
  lemma IgnoreRootDrops(tru: map<Edge, Label>, hyp: map<Edge, Label>, labelling: Option<string>, align: bool)
    ensures ScoreSentence(tru, hyp, labelling, align, true) == ScoreSentence(Unrooted(tru), Unrooted(hyp), labelling, align, false)
    ensures ScoreSentence(tru, hyp, labelling, align, true).Success? ==>
              ScoreSentence(tru, hyp, labelling, align, true).value.nTru <= |tru| && ScoreSentence(tru, hyp, labelling, align, true).value.nHyp <= |hyp|
  {
    SubsetSize(Unrooted(tru).Keys, tru.Keys);
    SubsetSize(Unrooted(hyp).Keys, hyp.Keys);
  }

  /** Empty sentences, and sentences with only a root dependency on each side, count nothing, whatever the labelling. */
  lemma TrivialCountsNothing(tru: map<Edge, Label>, hyp: map<Edge, Label>, labelling: Option<string>, align: bool)
    requires (|tru| == 0 && |hyp| == 0) || (|tru| == 1 && |hyp| == 1 && AllRoot(tru) && AllRoot(hyp))
    ensures ScoreSentence(tru, hyp, labelling, align, false) == Success(Counts(0, 0, 0))
  {
  }

  /** Unlabelled scoring counts the shared edges, and an unknown labelling raises unless the sentence is trivial. */
  lemma LabellingCases(tru: map<Edge, Label>, hyp: map<Edge, Label>, l: string, align: bool)
    requires !Trivial(tru, hyp)
    ensures ScoreSentence(tru, hyp, None, align, false) == Success(Counts(|tru|, |hyp|, |tru.Keys * hyp.Keys|))
    ensures l != "full" && l != "subcat" ==> ScoreSentence(tru, hyp, Some(l), align, false) == Failure(BadLabelling(l))
    ensures ScoreSentence(tru, hyp, Some("full"), align, false).Success?
  {
  }

  /** Full labelling keeps exactly the shared edges with equal labels. */
  lemma FullLabelling(tru: map<Edge, Label>, hyp: map<Edge, Label>, align: bool)
    ensures CorrectEdges(tru, hyp, false, align) == set e | e in tru && e in hyp && tru[e] == hyp[e]
  {
  }

  /** Subcategorial labelling, when it succeeds, finds at least as many correct edges as full labelling. */
  lemma SubcatAtLeastFull(tru: map<Edge, Label>, hyp: map<Edge, Label>, align: bool)
    requires ScoreSentence(tru, hyp, Some("subcat"), align, false).Success?
    ensures ScoreSentence(tru, hyp, Some("full"), align, false).Success?
    ensures ScoreSentence(tru, hyp, Some("full"), align, false).value.correct <= ScoreSentence(tru, hyp, Some("subcat"), align, false).value.correct
  {
    if !Trivial(tru, hyp) {
      forall e | e in CorrectEdges(tru, hyp, false, align)
        ensures e in CorrectEdges(tru, hyp, true, align)
      {
        assert LabelCorrect(tru[e], hyp[e], true, align).Success?;
        FullImpliesSubcat(tru[e], hyp[e], align);
      }
      SubsetSize(CorrectEdges(tru, hyp, false, align), CorrectEdges(tru, hyp, true, align));
    }
  }

  /** Subcategorial alignment, when it succeeds, finds at least as many correct edges as scoring without it. */
  lemma AlignAtLeastUnaligned(tru: map<Edge, Label>, hyp: map<Edge, Label>)
    requires ScoreSentence(tru, hyp, Some("subcat"), false, false).Success?
    ensures ScoreSentence(tru, hyp, Some("subcat"), true, false).Success?
    ensures ScoreSentence(tru, hyp, Some("subcat"), false, false).value.correct <= ScoreSentence(tru, hyp, Some("subcat"), true, false).value.correct
  {
    if !Trivial(tru, hyp) {
      forall e | e in tru && e in hyp
        ensures LabelCorrect(tru[e], hyp[e], true, true).Success?
      {
        assert LabelCorrect(tru[e], hyp[e], true, false).Success?;
      }
      forall e | e in CorrectEdges(tru, hyp, true, false)
        ensures e in CorrectEdges(tru, hyp, true, true)
      {
        AlignOnlyAdds(tru[e], hyp[e]);
      }
      SubsetSize(CorrectEdges(tru, hyp, true, false), CorrectEdges(tru, hyp, true, true));
    }
  }

  function Swap(r: Result<Counts, ScoreError>): Result<Counts, ScoreError> {
    if r.Success? then Success(Counts(r.value.nHyp, r.value.nTru, r.value.correct)) else r
  }

  /** Exchanging the true and the predicted dependencies exchanges their counts and keeps the correct count. */
  lemma ScoreSymmetric(tru: map<Edge, Label>, hyp: map<Edge, Label>, labelling: Option<string>, align: bool, ignoreRoot: bool)
    ensures ScoreSentence(hyp, tru, labelling, align, ignoreRoot) == Swap(ScoreSentence(tru, hyp, labelling, align, ignoreRoot))
  {
    var t := if ignoreRoot then Unrooted(tru) else tru;
    var h := if ignoreRoot then Unrooted(hyp) else hyp;
    assert t.Keys * h.Keys == h.Keys * t.Keys;
    if labelling.Some? {
      CorrectEdgesSymmetric(t, h, labelling.value == "subcat", align);
    }
  }

  /** The correct shared edges, and whether some shared label fails, do not depend on which side is the true one. */
  lemma CorrectEdgesSymmetric(t: map<Edge, Label>, h: map<Edge, Label>, subcat: bool, align: bool)
    ensures CorrectEdges(h, t, subcat, align) == CorrectEdges(t, h, subcat, align)
    ensures (exists e :: e in h.Keys * t.Keys && LabelCorrect(h[e], t[e], subcat, align).Failure?)
            <==> (exists e :: e in t.Keys * h.Keys && LabelCorrect(t[e], h[e], subcat, align).Failure?)
  {
    forall e | e in t && e in h
      ensures LabelCorrect(h[e], t[e], subcat, align).Success? == LabelCorrect(t[e], h[e], subcat, align).Success?
      ensures LabelCorrect(h[e], t[e], subcat, align) == Success(true) <==> LabelCorrect(t[e], h[e], subcat, align) == Success(true)
    {
      LabelCorrectSymmetric(t[e], h[e], subcat, align);
    }
  }
}
