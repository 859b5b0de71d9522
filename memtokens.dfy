/**
 * Text handling of the memory simulator: `tokenize_input` (strtok on
 * single spaces) and the C library `atoi` applied to its operands.
 */
module MemTokens {
  import opened Wrappers

  const INT_MIN: int := -0x8000_0000
  const INT_MAX: int := 0x7fff_ffff

  /** Length of the word at the front of `s`: up to the first space or the end. */
  function WordLength(s: string): (n: nat)
    ensures n <= |s|
  {
    if s == [] || s[0] == ' ' then 0 else 1 + WordLength(s[1..])
  }

  /** The front word holds no space and ends at a space or at the end of `s`. */
  lemma {:induction false} WordLengthSpec(s: string)
    ensures forall i :: 0 <= i < WordLength(s) ==> s[i] != ' '
    ensures WordLength(s) < |s| ==> s[WordLength(s)] == ' '
  {
    if s != [] && s[0] != ' ' {
      WordLengthSpec(s[1..]);
    }
  }

  /** The tokens strtok(s, " ") returns one after the other: the maximal runs of non-space characters. */
  function Tokens(s: string): seq<string>
    decreases |s|
  {
    if s == [] then []
    else if s[0] == ' ' then Tokens(s[1..])
    else
      var n := WordLength(s);
      [s[..n]] + Tokens(s[n..])
  }

  predicate IsWord(w: string) {
    w != [] && forall i :: 0 <= i < |w| ==> w[i] != ' '
  }

  function Concat(ws: seq<string>): string {
    if ws == [] then [] else ws[0] + Concat(ws[1..])
  }

  /** `s` with every space removed. */
  function NonSpaces(s: string): string {
    if s == [] then [] else (if s[0] == ' ' then [] else [s[0]]) + NonSpaces(s[1..])
  }

  /** `ws` joined by single spaces. */
  function Join(ws: seq<string>): string {
    if ws == [] then []
    else if |ws| == 1 then ws[0]
    else ws[0] + " " + Join(ws[1..])
  }

  lemma {:induction false} NonSpacesAppend(a: string, b: string)
    ensures NonSpaces(a + b) == NonSpaces(a) + NonSpaces(b)
    decreases |a|
  {
    if a == [] {
      assert a + b == b;
    } else {
      assert (a + b)[1..] == a[1..] + b;
      NonSpacesAppend(a[1..], b);
    }
  }

  lemma {:induction false} NonSpacesOfWord(w: string)
    requires forall i :: 0 <= i < |w| ==> w[i] != ' '
    ensures NonSpaces(w) == w
  {
    if w != [] {
      NonSpacesOfWord(w[1..]);
    }
  }

  /**
   * Every token is non-empty and holds no space, and the tokens put back
   * together are the line with its spaces taken out: nothing but spaces is
   * lost, and nothing is reordered.
   */
  lemma {:induction false} TokensSpec(s: string)
    ensures forall k :: 0 <= k < |Tokens(s)| ==> IsWord(Tokens(s)[k])
    ensures Concat(Tokens(s)) == NonSpaces(s)
    decreases |s|
  {
    if s == [] {
    } else if s[0] == ' ' {
      TokensSpec(s[1..]);
    } else {
      var n := WordLength(s);
      WordLengthSpec(s);
      TokensSpec(s[n..]);
      assert Tokens(s)[0] == s[..n] && Tokens(s)[1..] == Tokens(s[n..]);
      assert s == s[..n] + s[n..];
      NonSpacesAppend(s[..n], s[n..]);
      NonSpacesOfWord(s[..n]);
    }
  }

  /** A line without spaces at the front is one token followed by the tokens of what follows its end. */
  lemma WordThenRest(w: string, rest: string)
    requires IsWord(w) && (rest == [] || rest[0] == ' ')
    ensures WordLength(w + rest) == |w|
    ensures Tokens(w + rest) == [w] + Tokens(rest)
    decreases |w|
  {
    if |w| > 1 {
      assert (w + rest)[1..] == w[1..] + rest;
      WordThenRest(w[1..], rest);
    } else {
      assert (w + rest)[1..] == rest;
    }
    assert (w + rest)[..|w|] == w && (w + rest)[|w|..] == rest;
  }

  /** Tokenizing words joined by single spaces gives the words back. */
  lemma {:induction false} TokensOfJoin(ws: seq<string>)
    requires forall k :: 0 <= k < |ws| ==> IsWord(ws[k])
    ensures Tokens(Join(ws)) == ws
  {
    if |ws| == 1 {
      WordThenRest(ws[0], []);
      assert ws[0] + [] == ws[0];
    } else if |ws| > 1 {
      var rest := " " + Join(ws[1..]);
      TokensOfJoin(ws[1..]);
      assert rest[1..] == Join(ws[1..]);
      WordThenRest(ws[0], rest);
      assert Join(ws) == ws[0] + rest;
    }
  }

  /**
   * tokenize_input: scan the line once, collecting characters into the
   * current token and closing it at each space; the result lists the
   * tokens in order (the terminating NULL entry is the end of the sequence).
   */
  method TokenizeInput(input: string) returns (tokens: seq<string>)
    ensures tokens == Tokens(input)
  {
    tokens := [];
    var current: string := [];
    var i := 0;
    assert current + input[i..] == input;
    while i < |input|
      invariant 0 <= i <= |input|
      invariant forall j :: 0 <= j < |current| ==> current[j] != ' '
      invariant tokens + Tokens(current + input[i..]) == Tokens(input)
    {
      Advance(current, input, i);
      if input[i] == ' ' {
        if current != [] {
          assert tokens + ([current] + Tokens([] + input[i + 1..])) == (tokens + [current]) + Tokens([] + input[i + 1..]);
          tokens := tokens + [current];
          current := [];
        }
      } else {
        current := current + [input[i]];
      }
      i := i + 1;
    }
    if current != [] {
      WordThenRest(current, []);
      tokens := tokens + [current];
    }
    assert current + input[i..] == current && current + [] == current;
  }

  /** How the tokens of the unread part change when one more character is read into the current token. */
  lemma Advance(current: string, input: string, i: int)
    requires 0 <= i < |input|
    requires forall j :: 0 <= j < |current| ==> current[j] != ' '
    ensures input[i] == ' ' && current != [] ==>
      Tokens(current + input[i..]) == [current] + Tokens([] + input[i + 1..])
    ensures input[i] == ' ' && current == [] ==>
      Tokens(current + input[i..]) == Tokens(current + input[i + 1..])
    ensures input[i] != ' ' ==>
      Tokens(current + input[i..]) == Tokens((current + [input[i]]) + input[i + 1..])
  {
    if input[i] == ' ' {
      AtSpace(current, input[i..]);
      assert input[i..][1..] == input[i + 1..];
      assert [] + input[i + 1..] == input[i + 1..];
    } else {
      assert current + input[i..] == (current + [input[i]]) + input[i + 1..];
    }
  }

  /** At a space the current token, if any, is complete, and the space itself yields nothing. */
  lemma AtSpace(current: string, rest: string)
    requires rest != [] && rest[0] == ' '
    requires forall j :: 0 <= j < |current| ==> current[j] != ' '
    ensures Tokens(current + rest) == (if current == [] then [] else [current]) + Tokens(rest[1..])
  {
    assert Tokens(rest) == Tokens(rest[1..]);
    if current != [] {
      WordThenRest(current, rest);
    } else {
      assert current + rest == rest;
    }
  }

  /** The characters C's `isspace` accepts: space, tab, newline, vertical tab, form feed, carriage return. */
  predicate IsSpace(c: char) {
    c == ' ' || '\t' <= c <= '\r'
  }

  predicate IsDigit(c: char) {
    '0' <= c <= '9'
  }

  /**
   * The digits at the front of `s` read into the accumulator `acc`, most
   * significant first; reading stops at the first character that is not a digit.
   */
  function ReadDigits(s: string, acc: int): int {
    if s != [] && IsDigit(s[0]) then ReadDigits(s[1..], 10 * acc + (s[0] as int - '0' as int)) else acc
  }

  /** A value of the C `int` type; anything else has no defined result. */
  function InRange(v: int): Option<int> {
    if INT_MIN <= v <= INT_MAX then Some(v) else None
  }

  /**
   * `atoi(s)`: skip leading whitespace, read an optional sign and the
   * longest run of digits after it, and stop at anything else (no digits
   * gives 0). A value outside the C `int` range has no defined result,
   * which is `None` here.
   */
  function Atoi(s: string): Option<int> {
    if s != [] && IsSpace(s[0]) then Atoi(s[1..])
    else if s != [] && s[0] == '-' then InRange(-ReadDigits(s[1..], 0))
    else if s != [] && s[0] == '+' then InRange(ReadDigits(s[1..], 0))
    else InRange(ReadDigits(s, 0))
  }

  predicate AllDigits(d: string) {
    forall i :: 0 <= i < |d| ==> IsDigit(d[i])
  }

  /** Decimal numeral of `n`, no leading zeros. */
  function Decimal(n: nat): (d: string)
    ensures d != [] && AllDigits(d)
  {
    if n < 10 then [('0' as int + n) as char]
    else Decimal(n / 10) + [('0' as int + n % 10) as char]
  }

  /** Reading a run of digits and then more text is reading the text on from the run's value. */
  lemma {:induction false} ReadDigitsAppend(a: string, b: string, acc: int)
    requires AllDigits(a)
    ensures ReadDigits(a + b, acc) == ReadDigits(b, ReadDigits(a, acc))
    decreases |a|
  {
    if a == [] {
      assert a + b == b;
    } else {
      assert (a + b)[0] == a[0] && (a + b)[1..] == a[1..] + b;
      ReadDigitsAppend(a[1..], b, 10 * acc + (a[0] as int - '0' as int));
    }
  }

  /** The digits of a numeral read back to its value. */
  lemma {:induction false} DecimalValue(n: nat)
    ensures ReadDigits(Decimal(n), 0) == n
  {
    if n >= 10 {
      DecimalValue(n / 10);
      ReadDigitsAppend(Decimal(n / 10), [('0' as int + n % 10) as char], 0);
    }
  }

  /** atoi reads back every numeral of an `int`, written with a `-` when negative. */
  lemma AtoiDecimal(n: int)
    requires INT_MIN <= n <= INT_MAX
    ensures n >= 0 ==> Atoi(Decimal(n)) == Some(n)
    ensures n < 0 ==> Atoi("-" + Decimal(-n)) == Some(n)
  {
    if n >= 0 {
      DecimalValue(n);
      assert IsDigit(Decimal(n)[0]);
    } else {
      var s := "-" + Decimal(-n);
      DecimalValue(-n);
      assert s[0] == '-' && s[1..] == Decimal(-n);
    }
  }

  /** atoi only looks at the whitespace, the sign and the digits before the first other character. */
  lemma AtoiStopsAtJunk(d: string, junk: string)
    requires AllDigits(d) && d != [] && junk != [] && !IsDigit(junk[0])
    ensures Atoi(d + junk) == Atoi(d)
  {
    ReadDigitsAppend(d, junk, 0);
    assert (d + junk)[0] == d[0] && IsDigit(d[0]);
  }

  /** Leading whitespace does not change what atoi reads. */
  lemma {:induction false} AtoiSkipsSpaces(w: string, s: string)
    requires forall i :: 0 <= i < |w| ==> IsSpace(w[i])
    ensures Atoi(w + s) == Atoi(s)
    decreases |w|
  {
    if w == [] {
      assert w + s == s;
    } else {
      assert (w + s)[0] == w[0] && (w + s)[1..] == w[1..] + s;
      AtoiSkipsSpaces(w[1..], s);
    }
  }
}
