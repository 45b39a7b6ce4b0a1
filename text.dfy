/**
 * String helpers shared by the model: Python's `str(int)`, `int(str)` for
 * decimal literals, `str.split(sep)` and `str.join`.
 */
module Text {
  import opened Wrappers

  /** A decimal digit character. */
  predicate IsDigit(c: char) {
    '0' <= c <= '9'
  }

  function DigitChar(d: nat): (c: char)
    requires d < 10
    ensures IsDigit(c)
  {
    ['0', '1', '2', '3', '4', '5', '6', '7', '8', '9'][d]
  }

  function DigitValue(c: char): (d: nat)
    requires IsDigit(c)
    ensures d < 10 && DigitChar(d) == c
  {
    (c as int - '0' as int) as nat
  }

  /** Python's `str(n)` for a non-negative integer: no leading zeros. */
  function NatToString(n: nat): (s: string)
    ensures |s| > 0 && forall k :: 0 <= k < |s| ==> IsDigit(s[k])
  {
    if n < 10 then [DigitChar(n)] else NatToString(n / 10) + [DigitChar(n % 10)]
  }

  /** Python's `str(n)` for any integer. */
  function IntToString(n: int): (s: string)
    ensures |s| > 0
    ensures forall k :: 0 <= k < |s| ==> IsDigit(s[k]) || (k == 0 && s[k] == '-')
  {
    if n < 0 then "-" + NatToString(-n) else NatToString(n)
  }

  predicate AllDigits(s: string) {
    forall k :: 0 <= k < |s| ==> IsDigit(s[k])
  }

  /** The value of a non-empty run of decimal digits. */
  function DigitsValue(s: string): (n: nat)
    requires |s| > 0 && AllDigits(s)
  {
    if |s| == 1 then DigitValue(s[0])
    else DigitsValue(s[..|s| - 1]) * 10 + DigitValue(s[|s| - 1])
  }

  /** A non-empty run of decimal digits read as its value; `None` for anything else. */
  function ParseDigits(d: string): (r: Option<int>)
    ensures r.Some? ==> r.value >= 0
  {
    if |d| > 0 && AllDigits(d) then Some(DigitsValue(d)) else None
  }

  /**
   * Python's `int(s)` for an optionally signed run of ASCII digits; `None`
   * where `int` would raise ValueError.
   */
  function ParseInt(s: string): (r: Option<int>)
    ensures r.Some? ==> |s| > 0
  {
    if |s| == 0 then None
    else if s[0] == '-' then
      match ParseDigits(s[1..])
      case Some(v) => Some(-v)
      case None => None
    else if s[0] == '+' then ParseDigits(s[1..])
    else ParseDigits(s)
  }

  lemma {:induction false} DigitsOfNat(n: nat)
    ensures DigitsValue(NatToString(n)) == n
  {
    if n >= 10 {
      DigitsOfNat(n / 10);
      var s := NatToString(n);
      assert s[..|s| - 1] == NatToString(n / 10);
    }
  }

  /** The digits of `str(n)` read back as `n`. */
  lemma ParseDigitsOfNat(n: nat)
    ensures ParseDigits(NatToString(n)) == Some(n)
  {
    DigitsOfNat(n);
  }

  /** `int(str(n)) == n` for every integer. */
  lemma ParseIntOfIntToString(n: int)
    ensures ParseInt(IntToString(n)) == Some(n)
  {
    if n < 0 {
      ParseNegative(n);
    } else {
      ParseNonNegative(n);
    }
  }

  lemma ParseNegative(n: int)
    requires n < 0
    ensures ParseInt(IntToString(n)) == Some(n)
  {
    ParseDigitsOfNat(-n);
    MinusDigits(IntToString(n), NatToString(-n));
  }

  lemma ParseNonNegative(n: nat)
    ensures ParseInt(IntToString(n)) == Some(n)
  {
    ParseDigitsOfNat(n);
    var d := NatToString(n);
    assert IsDigit(d[0]);
  }

  /** A minus sign followed by a run of digits is read as the negated value. */
  lemma MinusDigits(s: string, d: string)
    requires s == "-" + d
    ensures ParseInt(s) == match ParseDigits(d) case Some(v) => Some(-v) case None => None
  {
    assert s[1..] == d;
  }

  /** Python's `s.split(sep)` for a one-character separator. */
  function SplitOn(s: string, sep: char): (parts: seq<string>)
    ensures |parts| >= 1
  {
    if |s| == 0 then [""]
    else
      var rest := SplitOn(s[1..], sep);
      if s[0] == sep then [""] + rest
      else [[s[0]] + rest[0]] + rest[1..]
  }

  /** Python's `sep.join(parts)`. */
  function JoinWith(parts: seq<string>, sep: char): string {
    if |parts| == 0 then ""
    else if |parts| == 1 then parts[0]
    else parts[0] + [sep] + JoinWith(parts[1..], sep)
  }

  /** Without the separator there is nothing to split. */
  lemma {:induction false} SplitOnNone(s: string, sep: char)
    requires sep !in s
    ensures SplitOn(s, sep) == [s]
  {
    if |s| > 0 {
      SplitOnNone(s[1..], sep);
      assert [s[0]] + s[1..] == s;
    }
  }

  /** Splitting where a separator-free prefix ends at the separator. */
  lemma {:induction false} SplitOnPrefix(a: string, sep: char, b: string)
    requires sep !in a
    ensures SplitOn(a + [sep] + b, sep) == [a] + SplitOn(b, sep)
  {
    var m := [sep] + b;
    assert a + [sep] + b == a + m;
    if |a| > 0 {
      SplitOnPrefix(a[1..], sep, b);
      assert a[1..] + [sep] + b == a[1..] + m;
      ConsSplit(a, m);
    } else {
      ConsSplit(m, []);
      assert a + m == m && m[1..] == b;
    }
  }

  /** The first character and the rest of a concatenation. */
  lemma ConsSplit(a: string, m: string)
    requires |a| > 0
    ensures (a + m)[0] == a[0] && (a + m)[1..] == a[1..] + m && [a[0]] + a[1..] == a
  {
  }

  /** `sep.join(s.split(sep)) == s`. */
  lemma {:induction false} JoinSplitOn(s: string, sep: char)
    ensures JoinWith(SplitOn(s, sep), sep) == s
  {
    if |s| > 0 {
      JoinSplitOn(s[1..], sep);
      var rest := SplitOn(s[1..], sep);
      if s[0] != sep {
        if |rest| > 1 {
          assert JoinWith(rest, sep) == rest[0] + [sep] + JoinWith(rest[1..], sep);
        }
      }
    }
  }

  /** Concatenation of a sequence of strings (Python `"".join`). */
  function Concat(parts: seq<string>): (s: string)
    ensures |parts| == 0 ==> s == ""
  {
    if |parts| == 0 then "" else parts[0] + Concat(parts[1..])
  }

  lemma {:induction false} ConcatAppend(a: seq<string>, b: seq<string>)
    ensures Concat(a + b) == Concat(a) + Concat(b)
  {
    if |a| > 0 {
      ConcatAppend(a[1..], b);
      assert (a + b)[1..] == a[1..] + b;
    } else {
      assert a + b == b;
    }
  }

  /** Python's `str.isspace()` set of characters (what `\s` matches). */
  predicate IsSpace(c: char) {
    c == ' ' || ('\t' <= c <= '\r') || ('\U{1c}' <= c <= '\U{1f}') || c == '\U{85}'
    || c == '\U{a0}' || c == '\U{1680}' || ('\U{2000}' <= c <= '\U{200a}')
    || c == '\U{2028}' || c == '\U{2029}' || c == '\U{202f}' || c == '\U{205f}' || c == '\U{3000}'
  }

  /** Python's `s.split()` (no argument): runs of whitespace separate words. */
  function Words(s: string): (ws: seq<string>)
    ensures |s| > 0 && !IsSpace(s[0]) ==> |ws| > 0
    ensures forall k :: 0 <= k < |ws| ==> |ws[k]| > 0
  {
    if |s| == 0 then []
    else
      var rest := Words(s[1..]);
      if IsSpace(s[0]) then rest
      else if |s| > 1 && !IsSpace(s[1]) then [[s[0]] + rest[0]] + rest[1..]
      else [[s[0]]] + rest
  }

  /** A nonempty run of non-space characters. */
  predicate IsWord(w: string) {
    |w| > 0 && forall k :: 0 <= k < |w| ==> !IsSpace(w[k])
  }

  /** A word followed by whitespace (or by nothing) is split off whole. */
  lemma {:induction false} WordsPrefix(w: string, rest: string)
    requires IsWord(w) && (|rest| == 0 || IsSpace(rest[0]))
    ensures Words(w + rest) == [w] + Words(rest)
    decreases |w|
  {
    var s := w + rest;
    assert s[0] == w[0] && s[1..] == w[1..] + rest;
    if |w| > 1 {
      assert IsWord(w[1..]) by {
        forall k | 0 <= k < |w[1..]|
          ensures !IsSpace(w[1..][k])
        {
          assert w[1..][k] == w[k + 1];
        }
      }
      WordsPrefix(w[1..], rest);
      assert s[1] == w[1];
      assert [w[0]] + w[1..] == w;
    } else {
      assert w == [w[0]] && s[1..] == rest;
    }
  }

  /** `" ".join(ws).split() == ws` for words without whitespace. */
  lemma {:induction false} WordsOfJoin(ws: seq<string>)
    requires forall k :: 0 <= k < |ws| ==> IsWord(ws[k])
    ensures Words(JoinWith(ws, ' ')) == ws
  {
    if |ws| == 1 {
      WordsPrefix(ws[0], "");
      assert ws[0] + "" == ws[0];
    } else if |ws| > 1 {
      var rest := JoinWith(ws[1..], ' ');
      WordsOfJoin(ws[1..]);
      WordsPrefix(ws[0], [' '] + rest);
      assert ws[0] + [' '] + rest == ws[0] + ([' '] + rest);
      assert ([' '] + rest)[1..] == rest;
      assert IsSpace(' ');
    }
  }
}

