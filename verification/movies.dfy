/** Movie.java: the record built from one catalog line, the two field
    converters `format` and `formatInt`, and `toString`. */
module Movies {
  import opened Options
  import opened Text
  import opened Tokenizer
  import opened Numbers

  /** One catalog entry. Every field keeps the text of its column except
      `year`, the one column converted to a number. */
  datatype Movie = Movie(
    title: string,
    studio: string,
    released: string,
    status: string,
    sound: string,
    versions: string,
    price: string,
    rating: string,
    year: int,
    genre: string,
    aspect: string)

  /** Number of columns the constructor reads. */
  const FieldCount: nat := 11

  /** The value formatInt falls back to when a column is not a number. */
  const UnknownYear: int := -1

  // ------------------------------------------------------------ format

  /** Movie.format: a token shorter than three characters becomes empty;
      any other token loses its first and its last character, whatever they
      are. */
  function Format(token: string): (r: string)
    ensures |token| < 3 ==> r == []
    ensures |token| >= 3 ==> |r| == |token| - 2 && token == [token[0]] + r + [token[|token| - 1]]
  {
    if |token| < 3 then [] else token[1..|token| - 1]
  }

  /** Unwrapping a quoted value gives the value back, the empty one included. */
  lemma FormatQuoted(x: string)
    ensures Format(Quoted(x)) == x
  {
    if x != [] {
      assert Quoted(x)[1..|x| + 1] == x;
    }
  }

  /** The characters removed are not checked: unquoted text loses its ends
      as well. */
  lemma FormatIgnoresQuotes(a: char, x: string, b: char)
    requires x != []
    ensures Format([a] + x + [b]) == x
  {
    assert ([a] + x + [b])[1..|x| + 1] == x;
  }

  // ------------------------------------------------------------ formatInt

  /** Movie.formatInt: Integer.parseInt of the formatted token, or -1 when
      that throws. */
  function FormatInt(token: string): (r: int)
    ensures IsInt32(r)
    ensures ParseInt(Format(token)) == None ==> r == UnknownYear
    ensures ParseInt(Format(token)).Some? ==> r == ParseInt(Format(token)).value
  {
    match ParseInt(Format(token))
    case Some(v) => v
    case None => UnknownYear
  }

  /** A quoted 32-bit number reads back as itself. */
  lemma FormatIntQuoted(n: int)
    requires IsInt32(n)
    ensures FormatInt(Quoted(ShowInt(n))) == n
  {
    FormatQuoted(ShowInt(n));
    ParseShowInt(n);
  }

  /** A literal -1 and a missing value are indistinguishable after formatInt. */
  lemma FormatIntSentinelAmbiguous()
    ensures FormatInt(Quoted("-1")) == FormatInt(Quoted("")) == UnknownYear
  {
    FormatIntQuoted(-1);
    assert ShowInt(-1) == "-1";
    FormatQuoted("");
  }

  /** An unquoted number loses its first and last digits: "1999" reads as 99. */
  lemma FormatIntUnquoted()
    ensures FormatInt("1999") == 99
  {
    assert Format("1999") == "99";
    assert DigitsValue("9") == 9;
    assert "99"[..1] == "9";
    assert DigitsValue("99") == 99;
  }

  // ------------------------------------------------------------ constructor

  /** The constructor's field assignments: column i of the record is
      `format(tokens[i])`, except the year which is `formatInt(tokens[8])`.
      Reading tokens[10] requires at least eleven tokens. */
  function FromTokens(tokens: seq<string>): (m: Movie)
    requires |tokens| >= FieldCount
    ensures IsInt32(m.year)
  {
    Movie(
      title := Format(tokens[0]),
      studio := Format(tokens[1]),
      released := Format(tokens[2]),
      status := Format(tokens[3]),
      sound := Format(tokens[4]),
      versions := Format(tokens[5]),
      price := Format(tokens[6]),
      rating := Format(tokens[7]),
      year := FormatInt(tokens[8]),
      genre := Format(tokens[9]),
      aspect := Format(tokens[10]))
  }

  /** Tokens after the eleventh have no effect on the record. */
  lemma FromTokensIgnoresExtra(tokens: seq<string>, extra: seq<string>)
    requires |tokens| >= FieldCount
    ensures FromTokens(tokens + extra) == FromTokens(tokens)
  {
  }

  /** `new Movie(line)`: split the line, then build the record. A line with
      fewer than eleven tokens makes the constructor throw, here None. */
  function Parse(line: string): (r: Option<Movie>)
    ensures r.Some? <==> |Split(line)| >= FieldCount
    ensures r.Some? <==> |SplitPoints(line)| >= FieldCount - 1
    ensures r.Some? ==> r.value == FromTokens(Split(line))
  {
    SplitCount(line);
    var tokens := Split(line);
    if |tokens| < FieldCount then None else Some(FromTokens(tokens))
  }

  /** Appending further columns with balanced quotes to a line that already
      parses leaves the record unchanged. */
  lemma ParseIgnoresExtraColumns(line: string, extra: string)
    requires Parse(line).Some?
    requires QuoteCount(extra) % 2 == 0
    ensures Parse(line + [Comma] + extra) == Parse(line)
  {
    SplitAppend(line, extra);
    FromTokensIgnoresExtra(Split(line), Split(extra));
  }

  /** The whole catalog, line by line in file order. The first line that
      does not parse aborts the traversal, as the constructor's exception
      aborts the stream operation that pulls it. */
  function ParseCatalog(lines: seq<string>): (r: Option<seq<Movie>>)
    ensures r.Some? <==> forall i :: 0 <= i < |lines| ==> Parse(lines[i]).Some?
    ensures r.Some? ==> |r.value| == |lines|
    ensures r.Some? ==> forall i :: 0 <= i < |lines| ==> r.value[i] == Parse(lines[i]).value
    decreases |lines|
  {
    if lines == [] then Some([])
    else
      match Parse(lines[0])
      case None => None
      case Some(m) =>
        match ParseCatalog(lines[1..])
        case None => None
        case Some(ms) => Some([m] + ms)
  }

  // ------------------------------------------------------------ toString

  /** Movie.toString: "title, studio (status)". */
  function ToString(m: Movie): (r: string)
    ensures |r| == |m.title| + |m.studio| + |m.status| + 5
    ensures r[..|m.title|] == m.title
    ensures r[|m.title|..|m.title| + 2] == ", "
    ensures r[|m.title| + 2..|r| - |m.status| - 1] == m.studio + " ("
    ensures r[|r| - |m.status| - 1..] == m.status + ")"
  {
    m.title + ", " + m.studio + " (" + m.status + ")"
  }

  /** Knowing the lengths of the title and the status, the text determines
      all three fields it shows. */
  lemma ToStringFields(a: Movie, b: Movie)
    requires ToString(a) == ToString(b)
    requires |a.title| == |b.title| && |a.status| == |b.status|
    ensures a.title == b.title && a.studio == b.studio && a.status == b.status
  {
    var r := ToString(a);
    assert a.studio + " (" == r[|a.title| + 2..|r| - |a.status| - 1] == b.studio + " (";
    assert a.studio == (a.studio + " (")[..|a.studio|];
    assert b.studio == (b.studio + " (")[..|b.studio|];
    assert a.status == (a.status + ")")[..|a.status|];
    assert b.status == (b.status + ")")[..|b.status|];
  }

  // ------------------------------------------------------------ writing a line

  /** The column texts of a record in file order. */
  function Columns(m: Movie): (cs: seq<string>)
    ensures |cs| == FieldCount
  {
    [m.title, m.studio, m.released, m.status, m.sound, m.versions,
     m.price, m.rating, ShowInt(m.year), m.genre, m.aspect]
  }

  /** A record that can be written as a catalog line: no field holds a double
      quote and the year fits in 32 bits. */
  predicate Writable(m: Movie)
  {
    && DoubleQuote !in m.title && DoubleQuote !in m.studio && DoubleQuote !in m.released
    && DoubleQuote !in m.status && DoubleQuote !in m.sound && DoubleQuote !in m.versions
    && DoubleQuote !in m.price && DoubleQuote !in m.rating && DoubleQuote !in m.genre
    && DoubleQuote !in m.aspect && IsInt32(m.year)
  }

  /** The catalog line format: every column quoted, columns separated by commas. */
  function Render(m: Movie): string
  {
    Join(QuoteAll(Columns(m)), [Comma])
  }

  /** No column text of a writable record holds a double quote. */
  lemma ColumnsUnquoted(m: Movie)
    requires Writable(m)
    ensures forall i :: 0 <= i < |Columns(m)| ==> DoubleQuote !in Columns(m)[i]
  {
    var year := ShowInt(m.year);
    forall j | 0 <= j < |year| ensures year[j] != DoubleQuote {
    }
  }

  /** Building a record from the quoted columns of a writable record gives
      that record back. */
  lemma FromQuotedColumns(m: Movie)
    requires Writable(m)
    ensures FromTokens(QuoteAll(Columns(m))) == m
  {
    FormatQuoted(m.title);
    FormatQuoted(m.studio);
    FormatQuoted(m.released);
    FormatQuoted(m.status);
    FormatQuoted(m.sound);
    FormatQuoted(m.versions);
    FormatQuoted(m.price);
    FormatQuoted(m.rating);
    FormatIntQuoted(m.year);
    FormatQuoted(m.genre);
    FormatQuoted(m.aspect);
  }

  /** Reading a written line gives the record back: splitting, unquoting and
      year parsing together invert the line format. Fields may hold commas. */
  lemma ParseRender(m: Movie)
    requires Writable(m)
    ensures Parse(Render(m)) == Some(m)
  {
    ColumnsUnquoted(m);
    SplitJoinQuoted(Columns(m));
    FromQuotedColumns(m);
  }
}
