/** The field splitter of a catalog line: `line.split(PATTERN, -1)` with
    PATTERN = `,(?=([^"]*"[^"]*")*[^"]*$)`. The look-ahead accepts a comma
    exactly when the rest of the line after it holds an even number of double
    quotes, so a comma inside a quoted span does not separate fields. The
    regular expression is not interpreted here; the rule is stated directly as
    that quote-parity predicate. Limit -1 keeps every piece, trailing empty
    ones included. */
module Tokenizer {
  import opened Text

  const Comma: char := ','
  const DoubleQuote: char := '"'

  /** Number of double quotes in s. */
  function QuoteCount(s: string): nat { multiset(s)[DoubleQuote] }

  /** The comma at index i is a field boundary. */
  predicate IsSplitPoint(line: string, i: int)
    requires 0 <= i < |line|
  {
    line[i] == Comma && QuoteCount(line[i + 1..]) % 2 == 0
  }

  /** Whether a position is a split point depends only on the suffix from it. */
  lemma SplitPointShift(line: string, i: int)
    requires 0 <= i < |line| - 1
    ensures IsSplitPoint(line, i + 1) == IsSplitPoint(line[1..], i)
  {
    assert line[1..][i + 1..] == line[i + 2..];
  }

  /** The tokens of a line: the pieces between consecutive split points. */
  function Split(line: string): (tokens: seq<string>)
    ensures |tokens| >= 1
    decreases |line|
  {
    if line == [] then [[]]
    else
      var rest := Split(line[1..]);
      if IsSplitPoint(line, 0) then [[]] + rest
      else [[line[0]] + rest[0]] + rest[1..]
  }

  // ------------------------------------------------ what Split computes

  /** Joining the tokens with "," reproduces the line exactly. */
  lemma {:induction false} JoinSplit(line: string)
    ensures Join(Split(line), [Comma]) == line
    decreases |line|
  {
    if line != [] {
      var rest := Split(line[1..]);
      JoinSplit(line[1..]);
      assert line == [line[0]] + line[1..];
      if IsSplitPoint(line, 0) {
        JoinEmptyFirst(rest, [Comma]);
      } else {
        JoinConsFirst(line[0], rest[0], rest[1..], [Comma]);
        assert [rest[0]] + rest[1..] == rest;
      }
    }
  }

  /** Position i of the joined string is the separator after one of the
      tokens other than the last. */
  predicate IsBoundary(tokens: seq<string>, i: int)
    decreases |tokens|
  {
    && |tokens| >= 2
    && (i == |tokens[0]| || (i > |tokens[0]| && IsBoundary(tokens[1..], i - |tokens[0]| - 1)))
  }

  /** A position is a boundary between tokens exactly when it is a split
      point: the tokens are cut at every split point and nowhere else. */
  lemma {:induction false} SplitBoundaries(line: string, i: int)
    requires 0 <= i < |line|
    ensures IsBoundary(Split(line), i) <==> IsSplitPoint(line, i)
    decreases |line|
  {
    var rest := Split(line[1..]);
    var tokens := Split(line);
    if i > 0 {
      SplitBoundaries(line[1..], i - 1);
      SplitPointShift(line, i - 1);
      if !IsSplitPoint(line, 0) {
        assert tokens[1..] == rest[1..];
      } else {
        assert tokens[1..] == rest;
      }
    }
  }

  /** Positions of the split points of a line. */
  function SplitPoints(line: string): set<nat>
  {
    set i: nat | i < |line| && IsSplitPoint(line, i)
  }

  /** Every element of s moved up by one. */
  function ShiftUp(s: set<nat>): set<nat>
  {
    set x | x in s :: x + 1
  }

  lemma {:induction false} ShiftCardinality(s: set<nat>)
    ensures |ShiftUp(s)| == |s|
    decreases |s|
  {
    if s != {} {
      var x :| x in s;
      var smaller := s - {x};
      ShiftCardinality(smaller);
      assert ShiftUp(s) == ShiftUp(smaller) + {x + 1} by {
        forall y | y in ShiftUp(s) ensures y in ShiftUp(smaller) + {x + 1} {
          var z :| z in s && y == z + 1;
          if z != x {
            assert z in smaller;
          }
        }
      }
      assert x + 1 !in ShiftUp(smaller);
    }
  }

  /** The split points of a line after its first character, moved down by one. */
  lemma SplitPointsTail(line: string)
    requires line != []
    ensures SplitPoints(line) - {0} == ShiftUp(SplitPoints(line[1..]))
  {
    var tail := SplitPoints(line[1..]);
    forall j | j in SplitPoints(line) - {0} ensures j in ShiftUp(tail) {
      SplitPointShift(line, j - 1);
      assert j - 1 in tail;
    }
    forall j | j in ShiftUp(tail) ensures j in SplitPoints(line) - {0} {
      var z :| z in tail && j == z + 1;
      SplitPointShift(line, z);
    }
  }

  /** There is one token more than there are split points; with limit -1 no
      token is ever dropped. */
  lemma {:induction false} SplitCount(line: string)
    ensures |Split(line)| == |SplitPoints(line)| + 1
    decreases |line|
  {
    if line != [] {
      var tail := SplitPoints(line[1..]);
      SplitCount(line[1..]);
      ShiftCardinality(tail);
      SplitPointsTail(line);
      if IsSplitPoint(line, 0) {
        assert SplitPoints(line) == {0} + ShiftUp(tail);
        assert 0 !in ShiftUp(tail);
      } else {
        assert SplitPoints(line) == ShiftUp(tail);
      }
    }
  }

  lemma QuoteCountAppend(x: string, y: string)
    ensures QuoteCount(x + y) == QuoteCount(x) + QuoteCount(y)
  {
    assert multiset(x + y) == multiset(x) + multiset(y);
  }

  lemma QuoteCountAroundComma(x: string, y: string)
    ensures QuoteCount(x + [Comma] + y) == QuoteCount(x) + QuoteCount(y)
  {
    QuoteCountAppend(x + [Comma], y);
    QuoteCountAppend(x, [Comma]);
  }

  lemma FirstSplitPointAppend(a: string, b: string)
    requires a != []
    requires QuoteCount(b) % 2 == 0
    ensures IsSplitPoint(a + [Comma] + b, 0) == IsSplitPoint(a, 0)
  {
    var s := a + [Comma] + b;
    assert s[1..] == a[1..] + [Comma] + b;
    QuoteCountAppend(a[1..] + [Comma], b);
    QuoteCountAppend(a[1..], [Comma]);
  }

  /** Two lines that agree on their first character and its split decision,
      and whose remainders split alike up to a common tail, split alike. */
  lemma SplitStep(x: string, y: string, tail: seq<string>)
    requires x != [] && y != [] && x[0] == y[0]
    requires IsSplitPoint(x, 0) == IsSplitPoint(y, 0)
    requires Split(x[1..]) == Split(y[1..]) + tail
    ensures Split(x) == Split(y) + tail
  {
    var ry := Split(y[1..]);
    if !IsSplitPoint(y, 0) {
      assert (ry + tail)[1..] == ry[1..] + tail;
    }
  }

  /** Appending "," and a part with an even number of quotes adds that
      part's tokens after the line's own tokens. */
  lemma {:induction false} SplitAppend(a: string, b: string)
    requires QuoteCount(b) % 2 == 0
    ensures Split(a + [Comma] + b) == Split(a) + Split(b)
    decreases |a|
  {
    var s := a + [Comma] + b;
    if a == [] {
      assert s[1..] == b;
      assert IsSplitPoint(s, 0);
    } else {
      assert s[1..] == a[1..] + [Comma] + b;
      SplitAppend(a[1..], b);
      FirstSplitPointAppend(a, b);
      SplitStep(s, a, Split(b));
    }
  }

  /** A field wrapped in double quotes. */
  function Quoted(f: string): string { [DoubleQuote] + f + [DoubleQuote] }

  /** A quoted field without inner quotes is one token, commas included. */
  lemma SplitQuoted(f: string)
    requires DoubleQuote !in f
    ensures Split(Quoted(f)) == [Quoted(f)]
  {
    var s := Quoted(f);
    forall i | 0 <= i < |s| ensures !IsSplitPoint(s, i) {
      if s[i] == Comma {
        assert s[i + 1..] == f[i..] + [DoubleQuote];
        QuoteCountAppend(f[i..], [DoubleQuote]);
        assert DoubleQuote !in f[i..];
      }
    }
    NoSplitPointSingleToken(s);
  }

  /** A line with no split point is a single token. */
  lemma {:induction false} NoSplitPointSingleToken(s: string)
    requires forall i :: 0 <= i < |s| ==> !IsSplitPoint(s, i)
    ensures Split(s) == [s]
    decreases |s|
  {
    if s != [] {
      forall i | 0 <= i < |s| - 1 ensures !IsSplitPoint(s[1..], i) {
        SplitPointShift(s, i);
      }
      NoSplitPointSingleToken(s[1..]);
      assert [s[0]] + s[1..] == s;
    }
  }

  /** A line without commas is a single token. */
  lemma NoCommaSingleToken(s: string)
    requires Comma !in s
    ensures Split(s) == [s]
  {
    forall i | 0 <= i < |s| ensures !IsSplitPoint(s, i) {
      assert s[i] in s;
    }
    NoSplitPointSingleToken(s);
  }

  /** A quoted field between two plain fields stays one token although it
      holds commas: `a,"b,c",d` is the three tokens `a`, `"b,c"` and `d`. */
  lemma SplitAroundQuotedField(a: string, f: string, d: string)
    requires Comma !in a && Comma !in d
    requires DoubleQuote !in f && DoubleQuote !in d
    ensures Split(a + [Comma] + Quoted(f) + [Comma] + d) == [a, Quoted(f), d]
  {
    var tail := Quoted(f) + [Comma] + d;
    QuotedThenPlain(f, d);
    NoCommaSingleToken(a);
    SplitAppend(a, tail);
    assert a + [Comma] + Quoted(f) + [Comma] + d == a + [Comma] + tail;
  }

  /** The part of that line after its first comma. */
  lemma QuotedThenPlain(f: string, d: string)
    requires Comma !in d
    requires DoubleQuote !in f && DoubleQuote !in d
    ensures QuoteCount(Quoted(f) + [Comma] + d) == 2
    ensures Split(Quoted(f) + [Comma] + d) == [Quoted(f), d]
  {
    SplitQuoted(f);
    NoCommaSingleToken(d);
    assert QuoteCount(d) == 0;
    QuoteCountAroundComma(Quoted(f), d);
    QuotedCount(f);
    SplitAppend(Quoted(f), d);
  }

  /** Every field wrapped in double quotes. */
  function QuoteAll(fields: seq<string>): (r: seq<string>)
    ensures |r| == |fields|
    ensures forall i :: 0 <= i < |r| ==> r[i] == Quoted(fields[i])
  {
    seq(|fields|, i requires 0 <= i < |fields| => Quoted(fields[i]))
  }

  lemma QuotedCount(f: string)
    requires DoubleQuote !in f
    ensures QuoteCount(Quoted(f)) == 2
  {
    QuoteCountAppend([DoubleQuote] + f, [DoubleQuote]);
    QuoteCountAppend([DoubleQuote], f);
  }

  lemma EvenPlusTwo(n: nat, k: nat)
    requires n == 2 + k
    requires k % 2 == 0
    ensures n % 2 == 0
  {
  }

  lemma {:induction false} JoinQuotedEven(fields: seq<string>)
    requires forall i :: 0 <= i < |fields| ==> DoubleQuote !in fields[i]
    ensures QuoteCount(Join(QuoteAll(fields), [Comma])) % 2 == 0
    decreases |fields|
  {
    var qs := QuoteAll(fields);
    var n := QuoteCount(Join(qs, [Comma]));
    if |fields| == 0 {
      assert Join(qs, [Comma]) == [];
    } else if |fields| == 1 {
      assert Join(qs, [Comma]) == qs[0];
      QuotedCount(fields[0]);
      EvenPlusTwo(n, 0);
    } else {
      JoinQuotedEven(fields[1..]);
      JoinQuotedCons(fields);
      EvenPlusTwo(n, QuoteCount(Join(QuoteAll(fields[1..]), [Comma])));
    }
  }

  /** The first quoted field adds two quotes to the rest of the line. */
  lemma JoinQuotedCons(fields: seq<string>)
    requires |fields| >= 2
    requires DoubleQuote !in fields[0]
    ensures QuoteCount(Join(QuoteAll(fields), [Comma]))
         == 2 + QuoteCount(Join(QuoteAll(fields[1..]), [Comma]))
  {
    var qs := QuoteAll(fields);
    assert QuoteAll(fields[1..]) == qs[1..];
    var tail := Join(qs[1..], [Comma]);
    assert Join(qs, [Comma]) == qs[0] + [Comma] + tail;
    QuotedCount(fields[0]);
    QuoteCountAroundComma(qs[0], tail);
  }

  /** A line written as quoted fields without inner quotes, separated by
      commas, splits back into exactly those quoted fields. */
  lemma {:induction false} SplitJoinQuoted(fields: seq<string>)
    requires |fields| > 0
    requires forall i :: 0 <= i < |fields| ==> DoubleQuote !in fields[i]
    ensures Split(Join(QuoteAll(fields), [Comma])) == QuoteAll(fields)
    decreases |fields|
  {
    var qs := QuoteAll(fields);
    SplitQuoted(fields[0]);
    if |fields| > 1 {
      var rest := fields[1..];
      assert QuoteAll(rest) == qs[1..];
      SplitJoinQuoted(rest);
      JoinQuotedEven(rest);
      var tail := Join(qs[1..], [Comma]);
      assert Join(qs, [Comma]) == qs[0] + [Comma] + tail;
      SplitAppend(qs[0], tail);
      assert [qs[0]] + qs[1..] == qs;
    }
  }

  // ------------------------------------------------ a single-pass tokenizer

  /** Computes the tokens in one right-to-left pass, keeping the parity of
      the quotes seen so far instead of rescanning the rest of the line at
      every comma as the look-ahead does. */
  method Tokenize(line: string) returns (tokens: seq<string>)
    ensures tokens == Split(line)
  {
    tokens := [[]];
    var even := true;
    var i := |line|;
    while i > 0
      invariant 0 <= i <= |line|
      invariant tokens == Split(line[i..])
      invariant even <==> QuoteCount(line[i..]) % 2 == 0
      decreases i
    {
      i := i - 1;
      var c := line[i];
      assert line[i..] == [c] + line[i + 1..];
      assert line[i..][1..] == line[i + 1..];
      if c == Comma && even {
        tokens := [[]] + tokens;
      } else {
        tokens := [[c] + tokens[0]] + tokens[1..];
      }
      if c == DoubleQuote {
        even := !even;
      }
    }
    assert line[0..] == line;
  }
}
