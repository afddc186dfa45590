/** The analytics of Main.java, each a pure function of the catalog's records
    (the first one of nothing). Parallel streams change only the order in
    which work is done, so everything is modelled sequentially, in the
    stream's encounter order. */
module Reports {
  import opened Options
  import opened Text
  import opened Movies
  import opened Collectors

  // ============================================ displayEvenNumbersInRange

  const EvenLimit: nat := 100

  /** LongStream.iterate(1, el -> el + 1).filter(el -> el % 2 == 0).limit(100):
      walks the positive numbers and keeps the even ones until it has a
      hundred. */
  method EvenNumbersInRange() returns (evens: seq<int>)
    ensures |evens| == EvenLimit
    ensures forall i :: 0 <= i < |evens| ==> evens[i] == 2 * (i + 1)
    ensures forall n :: n in evens <==> 2 <= n <= 2 * EvenLimit && n % 2 == 0
  {
    evens := [];
    var el := 1;
    while |evens| < EvenLimit
      invariant 1 <= el <= 2 * EvenLimit + 1
      invariant |evens| == (el - 1) / 2
      invariant |evens| <= EvenLimit
      invariant forall i :: 0 <= i < |evens| ==> evens[i] == 2 * (i + 1)
      decreases 2 * EvenLimit + 1 - el
    {
      if el % 2 == 0 {
        evens := evens + [el];
      }
      el := el + 1;
    }
    forall n | 2 <= n <= 2 * EvenLimit && n % 2 == 0 ensures n in evens {
      assert evens[n / 2 - 1] == n;
    }
  }

  // ============================================ displayCountedByYears

  function Years(movies: seq<Movie>): (ys: seq<int>)
    ensures |ys| == |movies|
    ensures forall i :: 0 <= i < |movies| ==> ys[i] == movies[i].year
  {
    seq(|movies|, i requires 0 <= i < |movies| => movies[i].year)
  }

  /** The years that occur in the catalog. */
  lemma YearsSet(movies: seq<Movie>)
    ensures Elements(Years(movies)) == set m | m in movies :: m.year
  {
    var years := Years(movies);
    forall y | y in years ensures y in set m | m in movies :: m.year {
      var i :| 0 <= i < |years| && years[i] == y;
      assert movies[i] in movies;
    }
    forall y | y in set m | m in movies :: m.year ensures y in years {
      var m :| m in movies && m.year == y;
      var i :| 0 <= i < |movies| && movies[i] == m;
      assert years[i] == y;
    }
  }

  /** groupingBy(year, counting()) copied into a TreeMap: one entry per year
      that occurs, in ascending order of year, counting the movies of that
      year. The sentinel year -1 is a year like any other. */
  function CountedByYears(movies: seq<Movie>): (r: seq<Entry<int>>)
    ensures forall i, j :: 0 <= i < j < |r| ==> r[i].key < r[j].key
    ensures KeySet(r) == set m | m in movies :: m.year
    ensures forall e :: e in r ==> e.count == multiset(Years(movies))[e.key]
    ensures Total(r) == |movies|
  {
    var counts := Tally(Years(movies));
    var r := SortBy(counts, ByKey);
    SortByTotal(counts, ByKey);
    SortByKeepsMap(counts, ByKey);
    PermutationMembers(r, counts);
    AscendingKeys(r);
    YearsSet(movies);
    r
  }

  /** When every movie has the same year, the report is that one year with
      the whole catalog as its count; two movies of 1999 give 1999 = 2. */
  lemma CountedByYearsSingleYear(movies: seq<Movie>, y: int)
    requires |movies| > 0
    requires forall i :: 0 <= i < |movies| ==> movies[i].year == y
    ensures CountedByYears(movies) == [Entry(y, |movies|)]
  {
    var r := CountedByYears(movies);
    assert (set m | m in movies :: m.year) == {y} by {
      assert movies[0] in movies;
    }
    SingleKey(r, y);
    AllSame(Years(movies), y);
  }

  /** A map whose only key is y is the single entry for y. */
  lemma SingleKey(r: seq<Entry<int>>, y: int)
    requires forall i, j :: 0 <= i < j < |r| ==> r[i].key < r[j].key
    requires KeySet(r) == {y}
    ensures |r| == 1 && r[0].key == y
  {
    assert DistinctKeys(r);
    DistinctKeysCardinality(r);
    assert r[0] in r;
  }

  lemma {:induction false} AllSame(xs: seq<int>, y: int)
    requires forall i :: 0 <= i < |xs| ==> xs[i] == y
    ensures multiset(xs)[y] == |xs|
    decreases |xs|
  {
    if xs != [] {
      assert xs == [xs[0]] + xs[1..];
      AllSame(xs[1..], y);
    }
  }

  // ============================================ displayTitlesWordsCountedAndOrdered

  /** Words of at most this many characters are dropped. */
  const ShortWordLength: nat := 2

  predicate IsWordChar(c: char)
  {
    'A' <= c <= 'Z' || 'a' <= c <= 'z' || '0' <= c <= '9'
  }

  /** The characters the cleaning pattern [^A-Za-z0-9 ] does not remove. */
  predicate IsKept(c: char) { IsWordChar(c) || c == ' ' }

  /** word.replaceAll("[^A-Za-z0-9 ]", ""): the kept characters, in order. */
  function Clean(word: string): (r: string)
    ensures |r| <= |word|
    ensures forall c :: c in r <==> c in word && IsKept(c)
    decreases |word|
  {
    if word == [] then []
    else (if IsKept(word[0]) then [word[0]] else []) + Clean(word[1..])
  }

  /** Cleaning a string made of kept characters changes nothing. */
  lemma {:induction false} CleanKeepsClean(word: string)
    requires forall c :: c in word ==> IsKept(c)
    ensures Clean(word) == word
    decreases |word|
  {
    if word != [] {
      assert word[0] in word;
      CleanKeepsClean(word[1..]);
      assert [word[0]] + word[1..] == word;
    }
  }

  /** A single character survives cleaning exactly when it is kept. */
  lemma CleanChar(c: char)
    ensures Clean([c]) == if IsKept(c) then [c] else []
  {
  }

  /** Cleaning works character by character: the kept characters stay in
      their order and with their multiplicity. */
  lemma {:induction false} CleanAppend(a: string, b: string)
    ensures Clean(a + b) == Clean(a) + Clean(b)
    decreases |a|
  {
    if a != [] {
      var head: string := if IsKept(a[0]) then [a[0]] else [];
      calc {
        Clean(a + b);
        { assert (a + b)[0] == a[0] && (a + b)[1..] == a[1..] + b; }
        head + Clean(a[1..] + b);
        { CleanAppend(a[1..], b); }
        head + (Clean(a[1..]) + Clean(b));
        (head + Clean(a[1..])) + Clean(b);
      }
    } else {
      assert a + b == b;
    }
  }

  /** Cleaning is idempotent. */
  lemma CleanIdempotent(word: string)
    ensures Clean(Clean(word)) == Clean(word)
  {
    CleanKeepsClean(Clean(word));
  }

  /** movie.title.trim().split("\\s+"): no word holds white space. */
  function TitleWords(title: string): (ws: seq<string>)
    ensures forall i, j :: 0 <= i < |ws| && 0 <= j < |ws[i]| ==> !IsRegexSpace(ws[i][j])
    ensures forall i :: 0 <= i < |ws| ==> ' ' !in ws[i]
  {
    var ws := JavaSplitWhitespace(Trim(title));
    forall i | 0 <= i < |ws| ensures ' ' !in ws[i] {
      assert forall j :: 0 <= j < |ws[i]| ==> ws[i][j] != ' ';
    }
    ws
  }

  /** A title made of words without blank characters, separated by single
      spaces, gives back exactly those words. */
  lemma TitleWordsJoin(words: seq<string>)
    requires |words| > 0
    requires forall i :: 0 <= i < |words| ==> words[i] != []
    requires forall i, j :: 0 <= i < |words| && 0 <= j < |words[i]| ==> !IsBlank(words[i][j])
    ensures TitleWords(Join(words, " ")) == words
  {
    var title := Join(words, " ");
    JoinEnds(words, " ");
    var last := words[|words| - 1];
    assert title[0] == words[0][0];
    assert title[|title| - 1] == last[|last| - 1];
    assert Trim(title) == title;
    WhitespaceSplitJoin(words);
  }

  function CleanAll(ws: seq<string>): (cs: seq<string>)
    ensures |cs| == |ws|
    ensures forall i :: 0 <= i < |ws| ==> cs[i] == Clean(ws[i])
  {
    seq(|ws|, i requires 0 <= i < |ws| => Clean(ws[i]))
  }

  /** The cleaned words of one movie's title. */
  function MovieWords(m: Movie): seq<string>
  {
    CleanAll(TitleWords(m.title))
  }

  /** The flatMap of the title words, cleaned: every movie's words in catalog
      order. */
  function CleanedTitleWords(movies: seq<Movie>): seq<string>
  {
    Flatten(Map(MovieWords, movies))
  }

  /** One movie contributes the cleaned words of its title. */
  lemma CleanedTitleWordsSingle(m: Movie)
    ensures CleanedTitleWords([m]) == CleanAll(TitleWords(m.title))
  {
    var words := MovieWords(m);
    assert Map(MovieWords, [m]) == [words];
    assert Flatten([words]) == words + Flatten([]);
  }

  /** The words of a catalog are those of its parts, in catalog order, so
      every occurrence of a word in a title is counted. */
  lemma CleanedTitleWordsAppend(a: seq<Movie>, b: seq<Movie>)
    ensures CleanedTitleWords(a + b) == CleanedTitleWords(a) + CleanedTitleWords(b)
  {
    MapAppend(MovieWords, a, b);
    FlattenAppend(Map(MovieWords, a), Map(MovieWords, b));
  }

  /** Title words carry no space, so a cleaned title word is letters and
      digits only. */
  lemma CleanedWordsAlphanumeric(title: string)
    ensures forall w :: w in CleanAll(TitleWords(title)) ==> forall c :: c in w ==> IsWordChar(c)
  {
    var words := TitleWords(title);
    var cleaned := CleanAll(words);
    forall w | w in cleaned ensures forall c :: c in w ==> IsWordChar(c) {
      var i :| 0 <= i < |cleaned| && cleaned[i] == w;
      assert ' ' !in words[i];
    }
  }

  lemma CleanedTitleWordsAlphanumeric(movies: seq<Movie>)
    ensures forall w :: w in CleanedTitleWords(movies) ==> forall c :: c in w ==> IsWordChar(c)
  {
    var lists := Map(MovieWords, movies);
    forall w | w in CleanedTitleWords(movies) ensures forall c :: c in w ==> IsWordChar(c) {
      FlattenMember(lists, w);
      var i :| 0 <= i < |lists| && w in lists[i];
      assert w in MovieWords(movies[i]);
      CleanedWordsAlphanumeric(movies[i].title);
    }
  }

  predicate IsLongWord(w: string) { |w| > ShortWordLength }

  /** The counting map of the words, restricted to words longer than two
      characters. */
  function LongWordCounts(words: seq<string>): (es: seq<Entry<string>>)
    ensures DistinctKeys(es)
    ensures forall e :: e in es <==>
      e.key in words && IsLongWord(e.key) && e.count == multiset(words)[e.key]
  {
    TallyEntries(words);
    KeepWhere(Tally(words), IsLongWord)
  }

  /** The title-word report: each cleaned word longer than two characters
      once, with its number of occurrences, ascending by that number. Every
      reported word is made of ASCII letters and digits only. */
  function TitlesWordsCountedAndOrdered(movies: seq<Movie>): (r: seq<Entry<string>>)
    ensures DistinctKeys(r)
    ensures forall e :: e in r <==>
      && e.key in CleanedTitleWords(movies)
      && |e.key| > ShortWordLength
      && e.count == multiset(CleanedTitleWords(movies))[e.key]
    ensures forall e :: e in r ==> forall c :: c in e.key ==> IsWordChar(c)
    ensures forall i, j :: 0 <= i < j < |r| ==> r[i].count <= r[j].count
  {
    CleanedTitleWordsAlphanumeric(movies);
    var long := LongWordCounts(CleanedTitleWords(movies));
    var r := SortBy(long, ByCount);
    assert DistinctKeys(r) by {
      SortByKeepsMap(long, ByCount);
    }
    assert forall e :: e in r <==> e in long by {
      PermutationMembers(r, long);
    }
    AscendingCounts(r);
    r
  }

  // ============================================ displayStudiosProductionsOutCounted

  const OutStatus: string := "Out"
  const StudioLimit: nat := 50

  predicate IsReleasedBy(m: Movie, studio: string)
  {
    m.status == OutStatus && m.studio == studio
  }

  /** The positions of the catalog's released movies of a studio. */
  function ReleasedBy(movies: seq<Movie>, studio: string): set<int>
  {
    set i | 0 <= i < |movies| && IsReleasedBy(movies[i], studio)
  }

  lemma ReleasedBySnoc(movies: seq<Movie>, studio: string)
    requires movies != []
    ensures |ReleasedBy(movies, studio)|
      == |ReleasedBy(movies[..|movies| - 1], studio)|
         + (if IsReleasedBy(movies[|movies| - 1], studio) then 1 else 0)
  {
    var n := |movies| - 1;
    var before := ReleasedBy(movies[..n], studio);
    var here: set<int> := if IsReleasedBy(movies[n], studio) then {n} else {};
    assert ReleasedBy(movies, studio) == before + here;
    assert n !in before;
  }

  /** The studios of the released movies (status exactly "Out"), in catalog
      order: each studio once per released movie of it. */
  function OutStudios(movies: seq<Movie>): (ss: seq<string>)
    ensures forall s :: s in ss <==> exists m :: m in movies && IsReleasedBy(m, s)
    ensures forall s :: multiset(ss)[s] == |ReleasedBy(movies, s)|
    ensures |ss| <= |movies|
    decreases |movies|
  {
    if movies == [] then []
    else
      var init := movies[..|movies| - 1];
      var m := movies[|movies| - 1];
      var rest := OutStudios(init);
      assert movies == init + [m];
      assert forall s :: |ReleasedBy(movies, s)| == |ReleasedBy(init, s)| + (if IsReleasedBy(m, s) then 1 else 0) by {
        forall s { ReleasedBySnoc(movies, s); }
      }
      if IsReleasedBy(m, m.studio) then rest + [m.studio] else rest
  }

  /** The studio counting map sorted by descending count, before the limit. */
  function StudioRanking(movies: seq<Movie>): (sorted: seq<Entry<string>>)
    ensures DistinctKeys(sorted)
    ensures |sorted| == |Elements(OutStudios(movies))|
    ensures forall e :: e in sorted <==>
      e.key in OutStudios(movies) && e.count == multiset(OutStudios(movies))[e.key]
    ensures SortedBy(sorted, ByCountDescending)
  {
    var studios := OutStudios(movies);
    var counts := Tally(studios);
    var sorted := SortBy(counts, ByCountDescending);
    assert DistinctKeys(sorted) && KeySet(sorted) == Elements(studios) by {
      SortByKeepsMap(counts, ByCountDescending);
    }
    assert |sorted| == |Elements(studios)| by {
      DistinctKeysCardinality(sorted);
    }
    assert forall e :: e in sorted <==> e.key in studios && e.count == multiset(studios)[e.key] by {
      PermutationMembers(sorted, counts);
      TallyEntries(studios);
    }
    sorted
  }

  /** The studio report: per studio the number of its released movies,
      descending by that number, at most fifty entries. */
  function StudiosProductionsOutCounted(movies: seq<Movie>): (r: seq<Entry<string>>)
    ensures var studios := Elements(OutStudios(movies));
      |r| == if |studios| < StudioLimit then |studios| else StudioLimit
    ensures DistinctKeys(r)
    ensures forall e :: e in r ==>
      e.key in OutStudios(movies) && e.count == multiset(OutStudios(movies))[e.key]
    ensures forall i, j :: 0 <= i < j < |r| ==> r[i].count >= r[j].count
  {
    var sorted := StudioRanking(movies);
    DescendingCounts(sorted);
    TakeKeepsMap(sorted, StudioLimit);
    Take(sorted, StudioLimit)
  }

  /** A released studio missing from the report was cut by the limit: fifty
      studios were reported, and the last of them has at least as many
      released movies. */
  lemma StudiosCutoff(movies: seq<Movie>, s: string)
    requires s in OutStudios(movies)
    requires s !in KeySet(StudiosProductionsOutCounted(movies))
    ensures |StudiosProductionsOutCounted(movies)| == StudioLimit
    ensures multiset(OutStudios(movies))[s] <= StudiosProductionsOutCounted(movies)[StudioLimit - 1].count
  {
    var sorted := StudioRanking(movies);
    var r := StudiosProductionsOutCounted(movies);
    var e := Entry(s, multiset(OutStudios(movies))[s]);
    assert e in sorted;
    assert e !in r;
    TakeCutoff(sorted, StudioLimit, e);
  }

  // ============================================ displayDistinctVersions

  /** movie.versions.split(",") with every piece trimmed: no piece holds a
      comma or starts or ends with a blank. */
  function MovieVersions(m: Movie): (vs: seq<string>)
    ensures forall v :: v in vs <==> exists p :: p in JavaSplit(m.versions, ',') && v == Trim(p)
    ensures forall v :: v in vs ==> ',' !in v && Trim(v) == v
  {
    var pieces := JavaSplit(m.versions, ',');
    var vs := seq(|pieces|, i requires 0 <= i < |pieces| => Trim(pieces[i]));
    forall p | p in pieces ensures Trim(p) in vs && ',' !in Trim(p) && Trim(Trim(p)) == Trim(p) {
      var i :| 0 <= i < |pieces| && pieces[i] == p;
      assert vs[i] == Trim(p);
      TrimChars(p);
      TrimIdempotent(p);
    }
    vs
  }

  /** The flattened trimmed version pieces of the catalog, movie by movie. */
  function VersionPieces(movies: seq<Movie>): (vs: seq<string>)
    ensures forall v :: v in vs <==> exists m :: m in movies && v in MovieVersions(m)
    ensures forall v :: v in vs ==> ',' !in v && Trim(v) == v
    decreases |movies|
  {
    if movies == [] then []
    else
      assert movies == [movies[0]] + movies[1..];
      MovieVersions(movies[0]) + VersionPieces(movies[1..])
  }

  /** The version report: every trimmed version piece of the catalog once,
      in the order of its first occurrence. */
  function DistinctVersions(movies: seq<Movie>): (r: seq<string>)
    ensures NoDuplicates(r)
    ensures forall v :: v in r <==> v in VersionPieces(movies)
    ensures forall i, j :: 0 <= i < j < |r| ==>
      FirstIndex(VersionPieces(movies), r[i]) < FirstIndex(VersionPieces(movies), r[j])
    ensures forall v :: v in r ==> ',' !in v && Trim(v) == v
  {
    Distinct(VersionPieces(movies))
  }

  // ============================================ displayListOfAllRatings

  function Ratings(movies: seq<Movie>): (rs: seq<string>)
    ensures |rs| == |movies|
    ensures forall i :: 0 <= i < |movies| ==> rs[i] == movies[i].rating
  {
    seq(|movies|, i requires 0 <= i < |movies| => movies[i].rating)
  }

  /** map(rating).distinct().reduce((a, b) -> a + " " + b): empty exactly
      when the catalog is, and otherwise the distinct ratings joined by
      single spaces. */
  function RatingsReduced(movies: seq<Movie>): (r: Option<string>)
    ensures r.None? <==> movies == []
    ensures r.Some? ==> r.value == Join(Distinct(Ratings(movies)), " ")
  {
    var distinct := Distinct(Ratings(movies));
    if movies == [] then None
    else
      assert Ratings(movies)[0] in distinct;
      ReduceJoinIsJoin(distinct, " ");
      Some(ReduceJoin(distinct, " "))
  }

  /** The rating report; `.get()` on an empty reduction throws, so the
      catalog must not be empty. */
  function ListOfAllRatings(movies: seq<Movie>): (r: string)
    requires |movies| > 0
    ensures r == Join(Distinct(Ratings(movies)), " ")
  {
    RatingsReduced(movies).value
  }

  /** When no rating holds a space, splitting the report on single spaces
      gives back the distinct ratings in first-occurrence order. */
  lemma RatingsRoundTrip(movies: seq<Movie>)
    requires |movies| > 0
    requires forall i :: 0 <= i < |movies| ==> ' ' !in movies[i].rating
    ensures SplitOn(ListOfAllRatings(movies), ' ') == Distinct(Ratings(movies))
  {
    var distinct := Distinct(Ratings(movies));
    forall i | 0 <= i < |distinct| ensures ' ' !in distinct[i] {
      assert distinct[i] in Ratings(movies);
    }
    SplitOnJoin(distinct, ' ');
  }
}
