/**
 * The filter that drops dependencies the C&C evaluation scripts ignore. The
 * table `deps_to_ignore` is built from two fixed lists of lines, one for the
 * markedup file of Java C&C and one for the original C&C's `generate`
 * output: every line that does not start with `#` is split at whitespace and
 * the resulting tuple of fields is an entry. A dependency is ignored when its
 * rule id alone, or its category, slot and rule id with or without the
 * predicate word and the argument word, is an entry.
 */
module CandcIgnore {
  import opened Text

  /** `x.startswith("#")`: a comment line of the lists. */
  predicate IsComment(line: string) {
    |line| > 0 && line[0] == '#'
  }

  /** `set(tuple(x.split()) for x in lines if not x.startswith("#"))`, tuples written as sequences. */
  function Entries(lines: seq<string>): set<seq<string>> {
    set line | line in lines && !IsComment(line) :: Words(line)
  }

  /**
   * The lines of the Java C&C list, after `.strip().split("\n")`, in three
   * runs: rule ids and `conj`, entries keyed by category, slot and rule, and
   * entries that also name the predicate word (and the argument word).
   */
  const JavaLines: seq<string> := JavaRuleLines + JavaCategoryLines + JavaWordLines

  const JavaRuleLines: seq<string> := [
    @"rule_id 7",
    @"rule_id 11",
    @"rule_id 12",
    @"rule_id 14",
    @"rule_id 15",
    @"rule_id 16",
    @"rule_id 17",
    @"rule_id 51",
    @"rule_id 52",
    @"rule_id 56",
    @"rule_id 91",
    @"rule_id 92",
    @"rule_id 95",
    @"rule_id 96",
    @"rule_id 98",
    @"conj 1 0"
  ]

  const JavaCategoryLines: seq<string> := [
    @"((S[to]{_}\NP{Y}<1>){_}/(S[b]{Z}\NP{Y}){Z}<2>){_} 1 0",
    @"((S[to]{_}\NP{Y}<1>){_}/(S[b]{Z}\NP{Y}){Z}<2>){_} 1 2",
    @"((S[to]{_}\NP{Y}<1>){_}/(S[b]{Z}\NP{Y}){Z}<2>){_} 1 3",
    @"((S[to]{_}\NP{Y}<1>){_}/(S[b]{Z}\NP{Y}){Z}<2>){_} 1 6",
    @"((S[to]{_}\NP{Y}<1>){_}/(S[b]{Z}\NP{Y}){Z}<2>){_} 1 9",
    @"((S[b]{_}\NP{Y}<1>){_}/NP{Z}<2>){_} 1 6",
    @"((S[b]{_}\NP{Y}<1>){_}/PP{Z}<2>){_} 1 6",
    @"(((S[b]{_}\NP{Y}<1>){_}/PP{Z}<2>){_}/NP{W}<3>){_} 1 6",
    @"(S[X]{Y}/S[X]{Y}<1>){_} 1 13",
    @"(S[X]{Y}/S[X]{Y}<1>){_} 1 5",
    @"(S[X]{Y}/S[X]{Y}<1>){_} 1 55",
    @"((S[X]{Y}/S[X]{Y}){Z}\(S[X]{Y}/S[X]{Y}){Z}<1>){_} 2 97",
    @"((S[X]{Y}\NP{Z}){Y}\(S[X]{Y}<1>\NP{Z}){Y}){_} 2 4",
    @"((S[X]{Y}\NP{Z}){Y}\(S[X]{Y}<1>\NP{Z}){Y}){_} 2 93",
    @"((S[X]{Y}\NP{Z}){Y}\(S[X]{Y}<1>\NP{Z}){Y}){_} 2 8",
    @"((S[X]{Y}\NP{Z}){Y}/(S[X]{Y}<1>\NP{Z}){Y}){_} 2 94",
    @"((S[X]{Y}\NP{Z}){Y}/(S[X]{Y}<1>\NP{Z}){Y}){_} 2 18"
  ]

  const JavaWordLines: seq<string> := [
    @"been ((S[pt]{_}\NP{Y}<1>){_}/(S[ng]{Z}<2>\NP{Y}){Z}){_} 1 0",
    @"been ((S[pt]{_}\NP{Y}<1>){_}/NP{Z}<2>){_} 1 there 0",
    @"been ((S[pt]{_}\NP{Y}<1>){_}/NP{Z}<2>){_} 1 There 0",
    @"be ((S[b]{_}\NP{Y}<1>){_}/NP{Z}<2>){_} 1 there 0",
    @"be ((S[b]{_}\NP{Y}<1>){_}/NP{Z}<2>){_} 1 There 0",
    @"been ((S[pt]{_}\NP{Y}<1>){_}/(S[pss]{Z}\NP{Y}){Z}<2>){_} 1 0",
    @"been ((S[pt]{_}\NP{Y}<1>){_}/(S[adj]{Z}\NP{Y}){Z}<2>){_} 1 0",
    @"be ((S[b]{_}\NP{Y}<1>){_}/(S[pss]{Z}\NP{Y}){Z}<2>){_} 1 0",
    @"have ((S[b]{_}\NP{Y}<1>){_}/(S[pt]{Z}\NP{Y}){Z}<2>){_} 1 0",
    @"be ((S[b]{_}\NP{Y}<1>){_}/(S[adj]{Z}\NP{Y}){Z}<2>){_} 1 0",
    @"be ((S[b]{_}\NP{Y}<1>){_}/(S[ng]{Z}\NP{Y}){Z}<2>){_} 1 0",
    @"be ((S[b]{_}\NP{Y}<1>){_}/(S[pss]{Z}<2>\NP{Y}){Z}){_} 1 0",
    @"going ((S[ng]{_}\NP{Y}<1>){_}/(S[to]{Z}<2>\NP{Y}){Z}){_} 1 0",
    @"have ((S[b]{_}\NP{Y}<1>){_}/(S[to]{Z}\NP{Y}){Z}<2>){_} 1 0",
    @"Here (S[adj]{_}\NP{Y}<1>){_} 1 0",
    @"# this is a dependency Julia doesn't have but looks okay",
    @"from (((NP{Y}\NP{Y}<1>){_}/(NP{Z}\NP{Z}){W}<3>){_}/NP{V}<2>){_} 1 0"
  ]

  /**
   * The lines of the original C&C list, after `.strip().split("\n")`, in three
   * runs: rule ids and `conj`, entries keyed by category, slot and rule, and
   * entries that also name the predicate word (and the argument word).
   */
  const OrigLines: seq<string> := OrigRuleLines + OrigCategoryLines + OrigWordLines

  const OrigRuleLines: seq<string> := [
    @"rule_id 7",
    @"rule_id 11",
    @"rule_id 12",
    @"rule_id 14",
    @"rule_id 15",
    @"rule_id 16",
    @"rule_id 17",
    @"rule_id 51",
    @"rule_id 52",
    @"rule_id 56",
    @"rule_id 91",
    @"rule_id 92",
    @"rule_id 95",
    @"rule_id 96",
    @"rule_id 98",
    @"conj 1 0"
  ]

  const OrigCategoryLines: seq<string> := [
    @"((S[to]{_}\NP{Z}<1>){_}/(S[b]{Y}<2>\NP{Z*}){Y}){_} 1 0",
    @"((S[to]{_}\NP{Z}<1>){_}/(S[b]{Y}<2>\NP{Z*}){Y}){_} 1 2",
    @"((S[to]{_}\NP{Z}<1>){_}/(S[b]{Y}<2>\NP{Z*}){Y}){_} 1 3",
    @"((S[to]{_}\NP{Z}<1>){_}/(S[b]{Y}<2>\NP{Z*}){Y}){_} 1 6",
    @"((S[to]{_}\NP{Z}<1>){_}/(S[b]{Y}<2>\NP{Z*}){Y}){_} 1 9",
    @"((S[b]{_}\NP{Y}<1>){_}/NP{Z}<2>){_} 1 6",
    @"((S[b]{_}\NP{Y}<1>){_}/PP{Z}<2>){_} 1 6",
    @"(((S[b]{_}\NP{Y}<1>){_}/PP{Z}<2>){_}/NP{W}<3>){_} 1 6",
    @"(S[X]{Y}/S[X]{Y}<1>){_} 1 13",
    @"(S[X]{Y}/S[X]{Y}<1>){_} 1 5",
    @"(S[X]{Y}/S[X]{Y}<1>){_} 1 55",
    @"((S[X]{Y}/S[X]{Y}){Z}\(S[X]{Y}/S[X]{Y}){Z}<1>){_} 2 97",
    @"((S[X]{Y}\NP{Z}){Y}\(S[X]{Y}<1>\NP{Z}){Y}){_} 2 4",
    @"((S[X]{Y}\NP{Z}){Y}\(S[X]{Y}<1>\NP{Z}){Y}){_} 2 93",
    @"((S[X]{Y}\NP{Z}){Y}\(S[X]{Y}<1>\NP{Z}){Y}){_} 2 8",
    @"((S[X]{Y}\NP{Z}){Y}/(S[X]{Y}<1>\NP{Z}){Y}){_} 2 94",
    @"((S[X]{Y}\NP{Z}){Y}/(S[X]{Y}<1>\NP{Z}){Y}){_} 2 18"
  ]

  const OrigWordLines: seq<string> := [
    @"been ((S[pt]{_}\NP{Y}<1>){_}/(S[ng]{Z}<2>\NP{Y*}){Z}){_} 1 0",
    @"been ((S[pt]{_}\NP{Y}<1>){_}/NP{Z}<2>){_} 1 there 0",
    @"been ((S[pt]{_}\NP{Y}<1>){_}/NP{Z}<2>){_} 1 There 0",
    @"be ((S[b]{_}\NP{Y}<1>){_}/NP{Z}<2>){_} 1 there 0",
    @"be ((S[b]{_}\NP{Y}<1>){_}/NP{Z}<2>){_} 1 There 0",
    @"been ((S[pt]{_}\NP{Y}<1>){_}/(S[pss]{Z}<2>\NP{Y*}){Z}){_} 1 0",
    @"been ((S[pt]{_}\NP{Y}<1>){_}/(S[adj]{Z}<2>\NP{Y*}){Z}){_} 1 0",
    @"be ((S[b]{_}\NP{Y}<1>){_}/(S[pss]{Z}<2>\NP{Y*}){Z}){_} 1 0",
    @"have ((S[b]{_}\NP{Y}<1>){_}/(S[pt]{Z}<2>\NP{Y*}){Z}){_} 1 0",
    @"be ((S[b]{_}\NP{Y}<1>){_}/(S[adj]{Z}<2>\NP{Y*}){Z}){_} 1 0",
    @"be ((S[b]{_}\NP{Y}<1>){_}/(S[ng]{Z}<2>\NP{Y*}){Z}){_} 1 0",
    @"be ((S[b]{_}\NP{Y}<1>){_}/(S[pss]{Z}<2>\NP{Y*}){Z}){_} 1 0",
    @"going ((S[ng]{_}\NP{Y}<1>){_}/(S[to]{Z}<2>\NP{Y*}){Z}){_} 1 0",
    @"have ((S[b]{_}\NP{Y}<1>){_}/(S[to]{Z}<2>\NP{Y*}){Z}){_} 1 0",
    @"Here (S[adj]{_}\NP{Y}<1>){_} 1 0",
    @"# this is a dependency Julia doesn't have but looks okay",
    @"from (((NP{Y}\NP{Y}<1>){_}/(NP{Z}\NP{Z}){W}<3>){_}/NP{V}<2>){_} 1 0"
  ]

  /** `deps_to_ignore`: the entries of both lists. */
  function DepsToIgnore(): set<seq<string>> {
    Entries(JavaLines) + Entries(OrigLines)
  }

  /** `ignore_dep(pred, cat, slot, arg, rule_id)` against a table. */
  function IgnoreIn(table: set<seq<string>>, pred: string, cat: string, slot: string, arg: string, rule: string): bool {
    || ["rule_id", rule] in table
    || [cat, slot, rule] in table
    || [pred, cat, slot, rule] in table
    || [pred, cat, slot, arg, rule] in table
  }

  /** `ignore_dep(pred, cat, slot, arg, rule_id)`. */
  function IgnoreDep(pred: string, cat: string, slot: string, arg: string, rule: string): bool {
    IgnoreIn(DepsToIgnore(), pred, cat, slot, arg, rule)
  }

  /** The four keys `ignore_dep` looks up, shortest first. */
  function Keys(pred: string, cat: string, slot: string, arg: string, rule: string): set<seq<string>> {
    {["rule_id", rule], [cat, slot, rule], [pred, cat, slot, rule], [pred, cat, slot, arg, rule]}
  }

  // How the table is built.

  /** A comment line adds no entry, wherever it stands. */
  lemma CommentDropped(a: seq<string>, c: string, b: seq<string>)
    requires IsComment(c)
    ensures Entries(a + [c] + b) == Entries(a + b)
  {
    forall e | e in Entries(a + [c] + b)
      ensures e in Entries(a + b)
    {
      var line :| line in a + [c] + b && !IsComment(line) && Words(line) == e;
      assert line in a + b;
    }
    forall e | e in Entries(a + b)
      ensures e in Entries(a + [c] + b)
    {
      var line :| line in a + b && !IsComment(line) && Words(line) == e;
      assert line in a + [c] + b;
    }
  }

  /** A line of either list that is not a comment is an entry of the table. */
  lemma LineInTable(line: string)
    requires line in JavaLines || line in OrigLines
    requires !IsComment(line)
    ensures Words(line) in DepsToIgnore()
  {
    if line in JavaLines {
      assert Words(line) in Entries(JavaLines);
    } else {
      assert Words(line) in Entries(OrigLines);
    }
  }

  /** Every entry of the table comes from a line of one of the lists that is not a comment. */
  lemma TableFromLines(e: seq<string>)
    requires e in DepsToIgnore()
    ensures exists line :: (line in JavaLines || line in OrigLines) && !IsComment(line) && Words(line) == e
  {
    if e in Entries(JavaLines) {
      var line :| line in JavaLines && !IsComment(line) && Words(line) == e;
    } else {
      var line :| line in OrigLines && !IsComment(line) && Words(line) == e;
    }
  }

  /** A line written as its fields joined by spaces gives those fields as an entry. */
  lemma FieldsInTable(lines: seq<string>, i: int, key: seq<string>)
    requires 0 <= i < |lines| && lines[i] == JoinWith(key, ' ') && !IsComment(lines[i])
    requires forall k :: 0 <= k < |key| ==> IsWord(key[k])
    ensures key in Entries(lines)
  {
    WordsOfJoin(key);
    assert lines[i] in lines;
  }

  // `ignore_dep`.

  /** A dependency is ignored exactly when one of its four keys is an entry. */
  lemma IgnoreKeys(table: set<seq<string>>, pred: string, cat: string, slot: string, arg: string, rule: string)
    ensures IgnoreIn(table, pred, cat, slot, arg, rule) <==> Keys(pred, cat, slot, arg, rule) * table != {}
  {
    var keys := Keys(pred, cat, slot, arg, rule);
    if IgnoreIn(table, pred, cat, slot, arg, rule) {
      var e :| e in keys && e in table;
      assert e in keys * table;
    } else {
      assert keys * table == {};
    }
  }

  /** An ignored rule id ignores every dependency built by that rule. */
  lemma RuleIgnored(table: set<seq<string>>, pred: string, cat: string, slot: string, arg: string, rule: string)
    requires ["rule_id", rule] in table
    ensures forall p, c, s, a :: IgnoreIn(table, p, c, s, a, rule)
  {
  }

  /** Ignoring by the union of two tables is ignoring by either of them. */
  lemma IgnoreUnion(t1: set<seq<string>>, t2: set<seq<string>>, pred: string, cat: string, slot: string, arg: string, rule: string)
    ensures IgnoreIn(t1 + t2, pred, cat, slot, arg, rule)
            <==> IgnoreIn(t1, pred, cat, slot, arg, rule) || IgnoreIn(t2, pred, cat, slot, arg, rule)
  {
  }

  /** `ignore_dep` ignores what either script ignores and nothing else. */
  lemma IgnoreDepEither(pred: string, cat: string, slot: string, arg: string, rule: string)
    ensures IgnoreDep(pred, cat, slot, arg, rule)
            <==> IgnoreIn(Entries(JavaLines), pred, cat, slot, arg, rule) || IgnoreIn(Entries(OrigLines), pred, cat, slot, arg, rule)
  {
    IgnoreUnion(Entries(JavaLines), Entries(OrigLines), pred, cat, slot, arg, rule);
  }

  /** The rule ids both lists ignore outright. */
  const IgnoredRuleIds := ["7", "11", "12", "14", "15", "16", "17", "51", "52", "56", "91", "92", "95", "96", "98"]

  /** The first fifteen lines of the Java list name the ignored rule ids. */
  lemma RuleLine(k: nat)
    requires k < |IgnoredRuleIds|
    ensures JavaLines[k] == "rule_id " + IgnoredRuleIds[k] && IsWord(IgnoredRuleIds[k])
  {
    assert JavaLines[k] == JavaRuleLines[k];
    if k < 8 {
      RuleTextLow(k);
    } else {
      RuleTextHigh(k);
    }
  }

  lemma RuleTextLow(k: nat)
    requires k < 8
    ensures JavaRuleLines[k] == "rule_id " + IgnoredRuleIds[k] && IsWord(IgnoredRuleIds[k])
  {
    if k == 0 {} else if k == 1 {} else if k == 2 {} else if k == 3 {}
    else if k == 4 {} else if k == 5 {} else if k == 6 {} else {}
  }

  lemma RuleTextHigh(k: nat)
    requires 8 <= k < 15
    ensures JavaRuleLines[k] == "rule_id " + IgnoredRuleIds[k] && IsWord(IgnoredRuleIds[k])
  {
    if k == 8 {} else if k == 9 {} else if k == 10 {} else if k == 11 {}
    else if k == 12 {} else if k == 13 {} else {}
  }

  /** Fields that hold no whitespace. */
  lemma SimpleWords()
    ensures IsWord("rule_id") && IsWord("conj") && IsWord("1") && IsWord("0")
  {
  }

  lemma JoinPair(a: string, b: string)
    ensures JoinWith([a, b], ' ') == a + " " + b
  {
    assert [a, b][1..] == [b];
  }

  /** Every dependency built by rules 7, 11, 12, 14-17, 51, 52, 56, 91, 92, 95, 96 or 98 is ignored. */
  lemma RuleIdsIgnored(pred: string, cat: string, slot: string, arg: string, rule: string)
    requires rule in IgnoredRuleIds
    ensures IgnoreDep(pred, cat, slot, arg, rule)
  {
    var k :| 0 <= k < |IgnoredRuleIds| && IgnoredRuleIds[k] == rule;
    RuleLine(k);
    JoinPair("rule_id", rule);
    SimpleWords();
    FieldsInTable(JavaLines, k, ["rule_id", rule]);
  }

  /** A conjunction's first slot, built by rule 0, is ignored whatever its words. */
  lemma ConjIgnored(pred: string, arg: string)
    ensures IgnoreDep(pred, "conj", "1", arg, "0")
  {
    ConjLine();
    SimpleWords();
    FieldsInTable(JavaLines, 15, ["conj", "1", "0"]);
    assert ["conj", "1", "0"] in DepsToIgnore();
  }

  /** The sixteenth line of the Java list is `conj 1 0`. */
  lemma ConjLine()
    ensures JavaLines[15] == JoinWith(["conj", "1", "0"], ' ') && !IsComment(JavaLines[15])
  {
    assert JavaLines[15] == JavaRuleLines[15];
    assert JavaRuleLines[15] == JoinWith(["conj", "1", "0"], ' ');
  }
}
