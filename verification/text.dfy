/** Character-level helpers with the semantics of java.lang.String that the
    record parser and the reports rely on: trim(), splitting on a separator
    with and without trailing empty pieces, and joining. */
module Text {

  /** String.trim() removes every character whose code is at most U+0020. */
  predicate IsBlank(c: char) { c <= ' ' }

  /** The regular-expression class \s: space, tab, line feed, vertical tab,
      form feed and carriage return. */
  predicate IsRegexSpace(c: char) { c == ' ' || '\t' <= c <= '\r' }

  // ---------------------------------------------------------------- trim

  /** The number of blank characters at the front of s. */
  function LeadingBlanks(s: string): (n: nat)
    ensures n <= |s|
    ensures forall i :: 0 <= i < n ==> IsBlank(s[i])
    ensures n < |s| ==> !IsBlank(s[n])
    decreases |s|
  {
    if s != [] && IsBlank(s[0]) then 1 + LeadingBlanks(s[1..]) else 0
  }

  /** The number of blank characters at the back of s. */
  function TrailingBlanks(s: string): (n: nat)
    ensures n <= |s|
    ensures forall i :: |s| - n <= i < |s| ==> IsBlank(s[i])
    ensures n < |s| ==> !IsBlank(s[|s| - n - 1])
    decreases |s|
  {
    if s != [] && IsBlank(s[|s| - 1]) then 1 + TrailingBlanks(s[..|s| - 1]) else 0
  }

  /** String.trim(): the infix of s left after removing blank characters from
      both ends. Only blank characters are removed, and the result neither
      starts nor ends with one. */
  function Trim(s: string): (r: string)
    ensures LeadingBlanks(s) + |r| <= |s|
    ensures r == s[LeadingBlanks(s)..LeadingBlanks(s) + |r|]
    ensures forall i :: 0 <= i < LeadingBlanks(s) ==> IsBlank(s[i])
    ensures forall i :: LeadingBlanks(s) + |r| <= i < |s| ==> IsBlank(s[i])
    ensures r == [] || (!IsBlank(r[0]) && !IsBlank(r[|r| - 1]))
  {
    var lead := LeadingBlanks(s);
    var t := s[lead..];
    var r := t[..|t| - TrailingBlanks(t)];
    assert r == s[lead..lead + |r|];
    forall i | lead + |r| <= i < |s| ensures IsBlank(s[i]) {
      assert s[i] == t[i - lead];
    }
    r
  }

  /** Trimming an already trimmed string changes nothing. */
  lemma TrimIdempotent(s: string)
    ensures Trim(Trim(s)) == Trim(s)
  {
    var t := Trim(s);
    assert LeadingBlanks(t) == 0;
    assert TrailingBlanks(t) == 0;
    assert t[0..] == t;
  }

  /** Trimming only removes characters. */
  lemma TrimChars(s: string)
    ensures forall c :: c in Trim(s) ==> c in s
  {
    var lead := LeadingBlanks(s);
    var t := Trim(s);
    forall c | c in t ensures c in s {
      var k :| 0 <= k < |t| && t[k] == c;
      assert s[lead + k] == c;
    }
  }

  // ---------------------------------------------------------------- join

  /** The pieces concatenated with sep between consecutive pieces; this is
      also what a left-to-right reduce((a, b) -> a + sep + b) produces. */
  function Join(parts: seq<string>, sep: string): (r: string)
    ensures |parts| == 1 ==> r == parts[0]
    decreases |parts|
  {
    if |parts| == 0 then ""
    else if |parts| == 1 then parts[0]
    else parts[0] + sep + Join(parts[1..], sep)
  }

  /** Prepending a character to the first piece prepends it to the join. */
  lemma JoinConsFirst(c: char, p: string, ps: seq<string>, sep: string)
    ensures Join([[c] + p] + ps, sep) == [c] + Join([p] + ps, sep)
  {
    if |ps| > 0 {
      assert ([[c] + p] + ps)[1..] == ps;
      assert ([p] + ps)[1..] == ps;
    }
  }

  /** A join begins with its first piece and ends with its last one. */
  lemma {:induction false} JoinEnds(parts: seq<string>, sep: string)
    requires |parts| > 0
    ensures |parts[0]| <= |Join(parts, sep)|
    ensures Join(parts, sep)[..|parts[0]|] == parts[0]
    ensures |parts[|parts| - 1]| <= |Join(parts, sep)|
    ensures Join(parts, sep)[|Join(parts, sep)| - |parts[|parts| - 1]|..] == parts[|parts| - 1]
    decreases |parts|
  {
    if |parts| > 1 {
      JoinEnds(parts[1..], sep);
    }
  }

  /** An empty first piece contributes only its separator. */
  lemma JoinEmptyFirst(ps: seq<string>, sep: string)
    requires |ps| > 0
    ensures Join([[]] + ps, sep) == sep + Join(ps, sep)
  {
    assert ([[]] + ps)[1..] == ps;
  }

  /** Joining a sequence of pieces one by one from the left, as a sequential
      reduce does, gives the same string as Join. */
  function ReduceJoin(parts: seq<string>, sep: string): (r: string)
    requires |parts| > 0
    decreases |parts|
  {
    if |parts| == 1 then parts[0]
    else ReduceJoin(parts[..|parts| - 1], sep) + sep + parts[|parts| - 1]
  }

  lemma {:induction false} ReduceJoinIsJoin(parts: seq<string>, sep: string)
    requires |parts| > 0
    ensures ReduceJoin(parts, sep) == Join(parts, sep)
    decreases |parts|
  {
    if |parts| > 1 {
      var init := parts[..|parts| - 1];
      ReduceJoinIsJoin(init, sep);
      JoinSnoc(init, parts[|parts| - 1], sep);
      assert init + [parts[|parts| - 1]] == parts;
    }
  }

  lemma {:induction false} JoinSnoc(parts: seq<string>, last: string, sep: string)
    requires |parts| > 0
    ensures Join(parts + [last], sep) == Join(parts, sep) + sep + last
    decreases |parts|
  {
    if |parts| == 1 {
      assert (parts + [last])[1..] == [last];
    } else {
      assert (parts + [last])[1..] == parts[1..] + [last];
      JoinSnoc(parts[1..], last, sep);
    }
  }

  // ---------------------------------------------------------------- split

  /** The number of characters of s satisfying isSep. */
  function Occurrences(s: string, isSep: char -> bool): nat
    decreases |s|
  {
    if s == [] then 0 else (if isSep(s[0]) then 1 else 0) + Occurrences(s[1..], isSep)
  }

  /** Splits s at every character satisfying isSep, keeping every piece,
      empty ones included (the behaviour of split with limit -1). */
  function SplitWhere(s: string, isSep: char -> bool): (r: seq<string>)
    ensures |r| == Occurrences(s, isSep) + 1
    ensures forall i, j :: 0 <= i < |r| && 0 <= j < |r[i]| ==> !isSep(r[i][j])
    decreases |s|
  {
    if s == [] then [[]]
    else
      var rest := SplitWhere(s[1..], isSep);
      if isSep(s[0]) then [[]] + rest
      else [[s[0]] + rest[0]] + rest[1..]
  }

  /** Splits s at every occurrence of sep, limit -1. */
  function SplitOn(s: string, sep: char): (r: seq<string>)
  {
    SplitWhere(s, c => c == sep)
  }

  /** Joining the pieces back with the separator gives the input. */
  lemma {:induction false} JoinSplitWhere(s: string, isSep: char -> bool, sep: char)
    requires forall c :: isSep(c) <==> c == sep
    ensures Join(SplitWhere(s, isSep), [sep]) == s
    decreases |s|
  {
    if s != [] {
      var rest := SplitWhere(s[1..], isSep);
      JoinSplitWhere(s[1..], isSep, sep);
      if isSep(s[0]) {
        assert ([[]] + rest)[1..] == rest;
      } else {
        JoinConsFirst(s[0], rest[0], rest[1..], [sep]);
        assert [rest[0]] + rest[1..] == rest;
      }
    }
  }

  /** Joining the limit -1 pieces with the separator restores the text. */
  lemma JoinSplitOn(s: string, sep: char)
    ensures Join(SplitOn(s, sep), [sep]) == s
  {
    JoinSplitWhere(s, c => c == sep, sep);
  }

  /** A string without separators is a single piece. */
  lemma {:induction false} SplitWhereNoSeparator(s: string, isSep: char -> bool)
    requires forall j :: 0 <= j < |s| ==> !isSep(s[j])
    ensures SplitWhere(s, isSep) == [s]
    decreases |s|
  {
    if s != [] {
      SplitWhereNoSeparator(s[1..], isSep);
      assert [s[0]] + s[1..] == s;
    }
  }

  /** A separator after a separator-free prefix ends the first piece. */
  lemma {:induction false} SplitWhereAppend(a: string, sep: char, b: string, isSep: char -> bool)
    requires forall j :: 0 <= j < |a| ==> !isSep(a[j])
    requires isSep(sep)
    ensures SplitWhere(a + [sep] + b, isSep) == [a] + SplitWhere(b, isSep)
    decreases |a|
  {
    var s := a + [sep] + b;
    if a == [] {
      assert s[1..] == b;
    } else {
      assert s[1..] == a[1..] + [sep] + b;
      SplitWhereAppend(a[1..], sep, b, isSep);
      assert [a[0]] + a[1..] == a;
    }
  }

  /** Splitting a join of separator-free pieces recovers the pieces. */
  lemma {:induction false} SplitWhereJoin(parts: seq<string>, isSep: char -> bool, sep: char)
    requires |parts| > 0
    requires isSep(sep)
    requires forall i, j :: 0 <= i < |parts| && 0 <= j < |parts[i]| ==> !isSep(parts[i][j])
    ensures SplitWhere(Join(parts, [sep]), isSep) == parts
    decreases |parts|
  {
    if |parts| == 1 {
      SplitWhereNoSeparator(parts[0], isSep);
    } else {
      SplitWhereJoin(parts[1..], isSep, sep);
      SplitWhereAppend(parts[0], sep, Join(parts[1..], [sep]), isSep);
      assert [parts[0]] + parts[1..] == parts;
    }
  }

  /** Splitting on sep and joining with sep are inverse to each other, in
      both directions, on pieces that do not contain sep. */
  lemma SplitOnJoin(parts: seq<string>, sep: char)
    requires |parts| > 0
    requires forall i :: 0 <= i < |parts| ==> sep !in parts[i]
    ensures SplitOn(Join(parts, [sep]), sep) == parts
  {
    var isSep := c => c == sep;
    forall i, j | 0 <= i < |parts| && 0 <= j < |parts[i]|
      ensures !isSep(parts[i][j])
    {
      assert parts[i][j] in parts[i];
    }
    SplitWhereJoin(parts, isSep, sep);
  }

  /** Removes the empty pieces at the end, as split with limit 0 does. */
  function DropTrailingEmpty(parts: seq<string>): (r: seq<string>)
    ensures |r| <= |parts| && r == parts[..|r|]
    ensures forall i :: |r| <= i < |parts| ==> parts[i] == []
    ensures r == [] || r[|r| - 1] != []
    decreases |parts|
  {
    if parts != [] && parts[|parts| - 1] == [] then DropTrailingEmpty(parts[..|parts| - 1])
    else parts
  }

  /** The non-empty pieces, in order. */
  function NonEmpty(parts: seq<string>): (r: seq<string>)
    ensures forall p :: p in r <==> p in parts && p != []
    decreases |parts|
  {
    if parts == [] then []
    else (if parts[0] == [] then [] else [parts[0]]) + NonEmpty(parts[1..])
  }

  lemma {:induction false} NonEmptyKeepsAll(parts: seq<string>)
    requires forall i :: 0 <= i < |parts| ==> parts[i] != []
    ensures NonEmpty(parts) == parts
    decreases |parts|
  {
    if parts != [] {
      NonEmptyKeepsAll(parts[1..]);
      assert [parts[0]] + parts[1..] == parts;
    }
  }

  /** String.split(String.valueOf(sep)) with limit 0: the empty string gives
      one empty piece, otherwise the pieces of SplitOn (which join back to s,
      see JoinSplitOn) with the trailing empty pieces dropped. */
  function JavaSplit(s: string, sep: char): (r: seq<string>)
    ensures s == [] ==> r == [[]]
    ensures s != [] ==> |r| <= |SplitOn(s, sep)| && r == SplitOn(s, sep)[..|r|]
    ensures s != [] ==> forall i :: |r| <= i < |SplitOn(s, sep)| ==> SplitOn(s, sep)[i] == []
    ensures s != [] && r != [] ==> r[|r| - 1] != []
    ensures forall i :: 0 <= i < |r| ==> sep !in r[i]
  {
    if s == [] then [[]]
    else
      var all := SplitOn(s, sep);
      var r := DropTrailingEmpty(all);
      forall i | 0 <= i < |r| ensures sep !in r[i] {
        assert r[i] == all[i];
        assert forall j :: 0 <= j < |all[i]| ==> all[i][j] != sep;
      }
      r
  }

  /** String.split("\\s+") with limit 0: the empty string gives one empty
      piece; otherwise the pieces between maximal runs of white space, with a
      leading empty piece when s starts with white space, and no piece at all
      when s is nothing but white space. */
  function JavaSplitWhitespace(s: string): (r: seq<string>)
    ensures s == [] ==> r == [[]]
    ensures forall i, j :: 0 <= i < |r| && 0 <= j < |r[i]| ==> !IsRegexSpace(r[i][j])
    ensures forall i :: 0 < i < |r| ==> r[i] != []
    ensures s != [] && r != [] && r[0] == [] ==> IsRegexSpace(s[0])
  {
    if s == [] then [[]]
    else
      var pieces := SplitWhere(s, IsRegexSpace);
      var words := NonEmpty(pieces);
      assert forall i :: 0 <= i < |words| ==> words[i] in pieces;
      if words == [] then []
      else (if IsRegexSpace(s[0]) then [[]] else []) + words
  }

  /** Words without white space, joined by single spaces, split back into
      those words: the inverse of split("\\s+") on such text. */
  lemma WhitespaceSplitJoin(words: seq<string>)
    requires |words| > 0
    requires forall i :: 0 <= i < |words| ==> words[i] != []
    requires forall i, j :: 0 <= i < |words| && 0 <= j < |words[i]| ==> !IsRegexSpace(words[i][j])
    ensures JavaSplitWhitespace(Join(words, " ")) == words
  {
    var s := Join(words, " ");
    JoinEnds(words, " ");
    assert s[0] == words[0][0];
    SplitWhereJoin(words, IsRegexSpace, ' ');
    NonEmptyKeepsAll(words);
  }
}
