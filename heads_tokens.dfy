/**
 * The two records of the head-finding code and their string forms: a
 * `WordToken` is a word with its 1-based position in the sentence, written
 * `word_idx`; a `HeadDependency` is a token with the category it heads,
 * written `word_idx CAT`, and the absent head is written `None`.
 */
module HeadTokens {
  import opened Wrappers
  import opened Text
  import opened CategoryTree
  import opened CategoryTokens
  import opened CategoryParser
  import opened CategoryPrinter
  import opened CategoryRoundTrip

  /** One occurrence of a word in a sentence. */
  datatype WordToken = WordToken(word: string, idx: int)

  /** A head word together with the category of the node it heads. */
  datatype HeadDependency = HeadDependency(token: WordToken, cat: Cat)

  /** Why `WordToken.from_str` raises ValueError. */
  datatype TokenError = FieldCount(parts: nat) | NotAnInteger(text: string)

  /** Why `HeadDependency.from_str` raises. */
  datatype HeadDepError = SpaceCount(parts: nat) | BadToken(tokenError: TokenError) | BadCategory(parseError: ParseError)

  /** `str(token)`: the word and the index joined by `_`. */
  function TokenStr(t: WordToken): string {
    t.word + "_" + IntToString(t.idx)
  }

  /** `WordToken.from_str(s)`: exactly two `_`-separated fields, the second an integer. */
  function TokenFromStr(s: string): (r: Result<WordToken, TokenError>)
    ensures r.Success? ==> '_' !in r.value.word
  {
    var parts := SplitOn(s, '_');
    if |parts| != 2 then Failure(FieldCount(|parts|))
    else match ParseInt(parts[1])
      case None => Failure(NotAnInteger(parts[1]))
      case Some(n) =>
        SplitOnFields(s, '_');
        Success(WordToken(parts[0], n))
  }

  /** The number of times `c` occurs in `s`. */
  function Occurrences(s: string, c: char): nat {
    if |s| == 0 then 0 else (if s[0] == c then 1 else 0) + Occurrences(s[1..], c)
  }

  /** `s.split(c)` has one field more than `s` has separators, and no field holds one. */
  lemma {:induction false} SplitOnFields(s: string, c: char)
    ensures |SplitOn(s, c)| == Occurrences(s, c) + 1
    ensures forall k :: 0 <= k < |SplitOn(s, c)| ==> c !in SplitOn(s, c)[k]
  {
    if |s| > 0 {
      SplitOnFields(s[1..], c);
      var rest := SplitOn(s[1..], c);
      if s[0] != c {
        assert SplitOn(s, c)[0] == [s[0]] + rest[0];
        forall k | 0 < k < |SplitOn(s, c)|
          ensures c !in SplitOn(s, c)[k]
        {
          assert SplitOn(s, c)[k] == rest[k];
        }
      } else {
        forall k | 0 < k < |SplitOn(s, c)|
          ensures c !in SplitOn(s, c)[k]
        {
          assert SplitOn(s, c)[k] == rest[k - 1];
        }
      }
    }
  }

  /** A string with more or fewer than one `_` is not a token. */
  lemma TokenFieldCount(s: string)
    requires Occurrences(s, '_') != 1
    ensures TokenFromStr(s) == Failure(FieldCount(Occurrences(s, '_') + 1))
  {
    SplitOnFields(s, '_');
  }

  /** A decimal rendering holds no underscore and no space. */
  lemma IntToStringPlain(n: int)
    ensures '_' !in IntToString(n) && ' ' !in IntToString(n)
  {
    var d := IntToString(n);
    forall k | 0 <= k < |d|
      ensures d[k] != '_' && d[k] != ' '
    {
      assert IsDigit(d[k]) || d[k] == '-';
    }
  }

  /** `WordToken.from_str(str(t)) == t` whenever the word holds no `_`. */
  lemma TokenRoundTrip(t: WordToken)
    requires '_' !in t.word
    ensures TokenFromStr(TokenStr(t)) == Success(t)
  {
    var d := IntToString(t.idx);
    IntToStringPlain(t.idx);
    SplitOnPrefix(t.word, '_', d);
    SplitOnNone(d, '_');
    assert t.word + "_" + d == t.word + ['_'] + d;
    ParseIntOfIntToString(t.idx);
  }

  /** A parsed token is read from its word, one `_` and the integer's text. */
  lemma TokenFromStrShape(s: string)
    requires TokenFromStr(s).Success?
    ensures var t := TokenFromStr(s).value;
            Occurrences(s, '_') == 1 && exists d :: s == t.word + "_" + d && ParseInt(d) == Some(t.idx)
  {
    var parts := SplitOn(s, '_');
    SplitOnFields(s, '_');
    JoinSplitOn(s, '_');
    assert JoinWith(parts, '_') == parts[0] + ['_'] + JoinWith(parts[1..], '_');
    assert parts[1..] == [parts[1]];
    assert s == TokenFromStr(s).value.word + "_" + parts[1];
  }

  /** `str(head)`: the token and the category joined by a space. */
  function HeadStr(h: HeadDependency): string {
    TokenStr(h.token) + " " + Str(h.cat)
  }

  /** `str(None)`, how an absent head is written. */
  const NoneText := "None"

  /** How `from_str` parses the category field: default flags, no cached entries. */
  const DefaultConfig := Config(false, false, true)

  /**
   * `HeadDependency.from_str(s)`: `None` for the text `None`, otherwise
   * exactly two space-separated fields, a token and a category.
   */
  function HeadFromStr(s: string): (r: Result<Option<HeadDependency>, HeadDepError>)
    ensures s == NoneText <==> r == Success(None)
  {
    if s == NoneText then Success(None)
    else
      var parts := SplitOn(s, ' ');
      if |parts| != 2 then Failure(SpaceCount(|parts|))
      else match TokenFromStr(parts[0])
        case Failure(e) => Failure(BadToken(e))
        case Success(t) =>
          match CategoryParser.FromStr(parts[1], DefaultConfig, map[]).res
          case Failure(e) => Failure(BadCategory(e))
          case Success(c) => Success(Some(HeadDependency(t, c)))
  }

  /** The characters of a token sequence are the characters of its tokens' texts. */
  lemma {:induction false} JoinNoSpace(toks: seq<Tok>)
    requires forall k :: 0 <= k < |toks| && toks[k].AtomTok? ==> ' ' !in toks[k].text
    ensures ' ' !in Join(toks)
  {
    if |toks| > 0 {
      JoinNoSpace(toks[1..]);
      assert ' ' !in TokText(toks[0]) by {
        if !toks[0].AtomTok? {
          assert |TokText(toks[0])| == 1 && IsDelimiter(TokText(toks[0])[0]);
        }
      }
    }
  }

  /** A well-formed category is written without spaces. */
  lemma StrNoSpace(c: Cat)
    requires WellFormed(c)
    ensures ' ' !in Str(c)
  {
    var toks := Print(c, false, false);
    forall k | 0 <= k < |toks| && toks[k].AtomTok?
      ensures ' ' !in toks[k].text
    {
      PrintAtoms(c, false, false, k);
      assert IsSpace(' ');
    }
    JoinNoSpace(toks);
  }

  /** Every atom token of a rendering is one of the tree's well-formed atoms. */
  lemma {:induction false} PrintAtoms(c: Cat, lassoc: bool, lambek: bool, k: nat)
    requires WellFormed(c) && k < |Print(c, lassoc, lambek)| && Print(c, lassoc, lambek)[k].AtomTok?
    ensures IsAtomText(Print(c, lassoc, lambek)[k].text)
    decreases c, 1
  {
    if c.Complex? {
      var swapped := lambek && c.slash == Bwd;
      var first := if swapped then c.argument else c.result;
      var second := if swapped then c.result else c.argument;
      var f := Operand(first, swapped || !lassoc, lassoc, lambek);
      var g := Operand(second, !swapped || !lassoc, lassoc, lambek);
      var sl := if swapped then Bwd else c.slash;
      assert Print(c, lassoc, lambek) == f + [SlashTok(sl)] + g;
      if k < |f| {
        OperandAtoms(first, swapped || !lassoc, lassoc, lambek, k);
      } else if k > |f| {
        assert Print(c, lassoc, lambek)[k] == g[k - |f| - 1];
        OperandAtoms(second, !swapped || !lassoc, lassoc, lambek, k - |f| - 1);
      }
    }
  }

  /** An operand's rendering, parenthesised or not. */
  function Operand(x: Cat, wrapped: bool, lassoc: bool, lambek: bool): seq<Tok> {
    if wrapped then Wrap(Print(x, lassoc, lambek)) else Print(x, lassoc, lambek)
  }

  lemma OperandAtoms(x: Cat, wrapped: bool, lassoc: bool, lambek: bool, k: nat)
    requires WellFormed(x) && k < |Operand(x, wrapped, lassoc, lambek)| && Operand(x, wrapped, lassoc, lambek)[k].AtomTok?
    ensures IsAtomText(Operand(x, wrapped, lassoc, lambek)[k].text)
    decreases x, 2
  {
    var p := Print(x, lassoc, lambek);
    if wrapped && |p| > 1 {
      assert Wrap(p) == [LParen] + p + [RParen];
      assert 0 < k <= |p| && Wrap(p)[k] == p[k - 1];
      PrintAtoms(x, lassoc, lambek, k - 1);
    } else {
      PrintAtoms(x, lassoc, lambek, k);
    }
  }

  /**
   * `HeadDependency.from_str(str(h)) == h` for a token whose word holds no
   * `_` and no space, and a well-formed category.
   */
  lemma HeadRoundTrip(h: HeadDependency)
    requires '_' !in h.token.word && ' ' !in h.token.word && WellFormed(h.cat)
    ensures HeadFromStr(HeadStr(h)) == Success(Some(h))
  {
    var ts := TokenStr(h.token);
    var cs := Str(h.cat);
    IntToStringPlain(h.token.idx);
    assert ' ' !in ts;
    StrNoSpace(h.cat);
    assert HeadStr(h) == ts + [' '] + cs;
    assert HeadStr(h) != NoneText by {
      assert ' ' in HeadStr(h);
    }
    SplitOnPrefix(ts, ' ', cs);
    SplitOnNone(cs, ' ');
    TokenRoundTrip(h.token);
    FromStrStr(h.cat);
  }
}
