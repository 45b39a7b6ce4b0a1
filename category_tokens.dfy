/**
 * Tokens of the category notation and the tokenizer of `from_str`: the
 * string is split at `(`, `)`, `/` and `\`, each delimiter kept as a token
 * of its own and each maximal run of other characters kept as one atom
 * token (empty pieces dropped).
 */
module CategoryTokens {
  import opened Text
  import opened CategoryTree

  datatype Tok = LParen | RParen | SlashTok(sl: Slash) | AtomTok(text: string)

  /** The text a token stands for. */
  function TokText(t: Tok): (s: string)
    ensures t.AtomTok? ==> s == t.text
    ensures !t.AtomTok? ==> |s| == 1 && IsDelimiter(s[0])
  {
    match t
    case LParen => "("
    case RParen => ")"
    case SlashTok(sl) => SlashText(sl)
    case AtomTok(a) => a
  }

  /** The token a delimiter character stands for. */
  function DelimTok(ch: char): (t: Tok)
    requires IsDelimiter(ch)
    ensures !t.AtomTok? && TokText(t) == [ch]
  {
    if ch == '(' then LParen
    else if ch == ')' then RParen
    else if ch == '/' then SlashTok(Fwd)
    else SlashTok(Bwd)
  }

  /** `"".join(tokens)`. */
  function Join(toks: seq<Tok>): string {
    if |toks| == 0 then "" else TokText(toks[0]) + Join(toks[1..])
  }

  /** `tuple(a for a in atom_delim.split(cat) if a)`. */
  function Tokenize(s: string): (toks: seq<Tok>)
    ensures |s| > 0 && IsDelimiter(s[0]) ==> |toks| > 0 && toks[0] == DelimTok(s[0])
    ensures |s| > 0 && !IsDelimiter(s[0]) ==> |toks| > 0 && toks[0].AtomTok?
  {
    if |s| == 0 then []
    else
      var rest := Tokenize(s[1..]);
      if IsDelimiter(s[0]) then [DelimTok(s[0])] + rest
      else if |rest| > 0 && rest[0].AtomTok? then [AtomTok([s[0]] + rest[0].text)] + rest[1..]
      else [AtomTok([s[0]])] + rest
  }

  /** Text without delimiters, as an atom token carries after tokenizing. */
  predicate NoDelimiters(s: string) {
    forall k :: 0 <= k < |s| ==> !IsDelimiter(s[k])
  }

  /**
   * A token sequence the tokenizer can reproduce: every atom token is
   * non-empty and delimiter-free, and no two atom tokens are adjacent.
   */
  predicate Separated(toks: seq<Tok>) {
    && (forall k :: 0 <= k < |toks| && toks[k].AtomTok? ==> |toks[k].text| > 0 && NoDelimiters(toks[k].text))
    && (forall k :: 0 <= k < |toks| - 1 ==> !(toks[k].AtomTok? && toks[k + 1].AtomTok?))
  }

  lemma {:induction false} JoinAppend(a: seq<Tok>, b: seq<Tok>)
    ensures Join(a + b) == Join(a) + Join(b)
  {
    if |a| > 0 {
      JoinAppend(a[1..], b);
      assert (a + b)[1..] == a[1..] + b;
    } else {
      assert a + b == b;
    }
  }

  /** An atom run followed by a delimiter (or nothing) tokenizes to one atom token. */
  lemma {:induction false} TokenizeAtomPrefix(a: string, s: string)
    requires |a| > 0 && NoDelimiters(a)
    requires |s| == 0 || IsDelimiter(s[0])
    ensures Tokenize(a + s) == [AtomTok(a)] + Tokenize(s)
  {
    var whole := a + s;
    assert whole[0] == a[0] && !IsDelimiter(whole[0]);
    var rest := Tokenize(whole[1..]);
    if |a| == 1 {
      assert whole[1..] == s;
      assert |rest| > 0 ==> rest[0] == DelimTok(s[0]);
      assert [a[0]] == a;
    } else {
      assert whole[1..] == a[1..] + s;
      TokenizeAtomPrefix(a[1..], s);
      assert rest == [AtomTok(a[1..])] + Tokenize(s);
      assert [a[0]] + a[1..] == a;
    }
  }

  /** Tokenizing the joined text of a separated sequence gives the sequence back. */
  lemma {:induction false} TokenizeJoin(toks: seq<Tok>)
    requires Separated(toks)
    ensures Tokenize(Join(toks)) == toks
  {
    if |toks| > 0 {
      var t, rest := toks[0], toks[1..];
      assert Separated(rest);
      TokenizeJoin(rest);
      var s := Join(rest);
      if t.AtomTok? {
        if |rest| > 0 {
          assert !rest[0].AtomTok?;
          assert s == TokText(rest[0]) + Join(rest[1..]);
        }
        TokenizeAtomPrefix(t.text, s);
      } else {
        var j := Join(toks);
        assert j[0] == TokText(t)[0];
        assert j[1..] == s;
        assert DelimTok(j[0]) == t;
      }
    }
  }

  /** A delimiter character in front of a string becomes a token of its own. */
  lemma TokenizeDelim(ch: char, s: string)
    requires IsDelimiter(ch)
    ensures Tokenize([ch] + s) == [DelimTok(ch)] + Tokenize(s)
  {
    assert ([ch] + s)[1..] == s;
  }

  /**
   * The joined text of a separated sequence, followed by nothing or by a
   * delimiter, tokenizes to the sequence followed by the rest's tokens.
   */
  lemma {:induction false} TokenizePrefix(toks: seq<Tok>, s: string)
    requires Separated(toks)
    requires |s| == 0 || IsDelimiter(s[0])
    ensures Tokenize(Join(toks) + s) == toks + Tokenize(s)
  {
    if |toks| == 0 {
      assert Join(toks) + s == s;
    } else {
      var rest := toks[1..];
      assert Separated(rest);
      TokenizePrefix(rest, s);
      TokenizeCons(toks, s);
    }
  }

  /** One step of `TokenizePrefix`: the first token in front of the rest's tokens. */
  lemma TokenizeCons(toks: seq<Tok>, s: string)
    requires |toks| > 0 && Separated(toks)
    requires |s| == 0 || IsDelimiter(s[0])
    requires Tokenize(Join(toks[1..]) + s) == toks[1..] + Tokenize(s)
    ensures Tokenize(Join(toks) + s) == toks + Tokenize(s)
  {
    var t, rest := toks[0], toks[1..];
    JoinConsAppend(toks, s);
    ConsAppend(toks, Tokenize(s));
    if t.AtomTok? {
      assert |t.text| > 0 && NoDelimiters(t.text);
      assert |rest| > 0 ==> !rest[0].AtomTok?;
      AtomCons(t, rest, s);
    } else {
      DelimCons(t, Join(rest) + s);
    }
  }

  lemma JoinConsAppend(toks: seq<Tok>, s: string)
    requires |toks| > 0
    ensures Join(toks) + s == TokText(toks[0]) + (Join(toks[1..]) + s)
  {
  }

  lemma AtomCons(t: Tok, rest: seq<Tok>, s: string)
    requires t.AtomTok? && |t.text| > 0 && NoDelimiters(t.text)
    requires |rest| > 0 ==> !rest[0].AtomTok?
    requires |s| == 0 || IsDelimiter(s[0])
    ensures Tokenize(TokText(t) + (Join(rest) + s)) == [t] + Tokenize(Join(rest) + s)
  {
    AtomThenDelim(rest, s);
    TokenizeAtomPrefix(t.text, Join(rest) + s);
  }

  lemma ConsAppend(x: seq<Tok>, r: seq<Tok>)
    requires |x| > 0
    ensures x + r == [x[0]] + (x[1..] + r)
  {
    assert x == [x[0]] + x[1..];
  }

  lemma DelimCons(t: Tok, m: string)
    requires !t.AtomTok?
    ensures Tokenize(TokText(t) + m) == [t] + Tokenize(m)
  {
    var ch := TokText(t)[0];
    assert TokText(t) == [ch] && DelimTok(ch) == t;
    TokenizeDelim(ch, m);
  }

  /** What follows an atom token in a separated sequence begins with a delimiter, if anything. */
  lemma AtomThenDelim(rest: seq<Tok>, s: string)
    requires |rest| > 0 ==> !rest[0].AtomTok?
    requires |s| == 0 || IsDelimiter(s[0])
    ensures var m := Join(rest) + s; |m| == 0 || IsDelimiter(m[0])
  {
    if |rest| > 0 {
      assert Join(rest) + s == TokText(rest[0]) + (Join(rest[1..]) + s);
    } else {
      assert Join(rest) + s == s;
    }
  }
}
