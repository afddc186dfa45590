# Movie catalog streams, modelled in Dafny

The Java program reads a catalog of DVD releases. The catalog is a text file with one movie per line and eleven comma-separated columns, usually quoted. The program turns each line into an immutable `Movie` record and runs a series of stream-based reports over the records.

This project models the two pure parts of that program:

- **Record parser** (`Movie.java`). It covers:
  - the quote-aware split rule;
  - the field converters `format` and `formatInt`;
  - the `Movie(String)` constructor;
  - `toString`.
- **Reports** (`Main.java`). Each report is a function of the sequence of parsed records:
  - the first hundred even numbers;
  - movies counted per year;
  - title words counted and ordered;
  - the top fifty studios by released movies;
  - the distinct versions;
  - the ratings joined into one line.

## Modules

- `options.dfy`: `Option`, standing in for an exception or an empty `Optional`.
- `text.dfy`: the `java.lang.String` behaviour the program relies on:
  - `trim()`, which removes characters at or below U+0020;
  - `split` with limit -1, and with limit 0, which drops trailing empty pieces;
  - `split("\\s+")`;
  - joining pieces with a separator.
- `tokenizer.dfy`: the split rule `,(?=([^"]*"[^"]*")*[^"]*$)`, written as a predicate. A comma is a split point exactly when an even number of double quotes follows it. `Split` is the recursive definition, and `Tokenize` is a right-to-left loop that keeps a running parity.
- `numbers.dfy`: `Integer.parseInt` on ASCII decimal text, with its 32-bit range check, and the decimal rendering that it inverts.
- `movies.dfy`:
  - the `Movie` datatype;
  - `Format`, `FormatInt`, `FromTokens` and `Parse`, which is `new Movie(line)`;
  - `ParseCatalog`, which parses every line of the file;
  - `ToString`;
  - `Render`, a line writer used only to state the round trip.
- `collectors.dfy`: the stream collectors the reports are built from:
  - `groupingBy(…, counting())` as a tally of `(key, count)` entries;
  - sorting entries by a rank;
  - `map` and `flatMap`;
  - `filter` on keys, `limit` and `distinct()`.
- `reports.dfy`: the six reports.

### Behaviour of the code worth knowing

- **Short lines.** The constructor does not pad short lines. It reads `tokens[10]`, so a line with fewer than eleven tokens throws. `Parse` therefore returns `None` exactly when the line has fewer than eleven tokens.
- **Unquoting.** `format` drops the first and the last character of every token of length three or more, whatever those characters are, and turns every shorter token into the empty string. An unquoted token therefore loses two characters: `FormatInt("1999")` is 99.
- **The `a,"b,c",d` line.** The split keeps the quoted field whole and gives the tokens `a`, `"b,c"` and `d`. After `format`, `a` and `d` become empty strings, because they are shorter than three characters.
- **Report orders.** The comment at Main.java:182 says that the studios are ranked by ascending count. The comparator is negated, so the code sorts by descending count, and so does the model. The comment above `displayCountedByYears` also speaks of ascending counts. The code prints from a `TreeMap`, so its lines come out in ascending year order, and that is the order modelled.
- **Blank titles.** A title that is empty or all blank trims to the empty string, and `split("\\s+")` gives one empty word for it. That word is dropped only later, by the length filter of the title-word report.
- **Empty catalog.** `displayListOfAllRatings` calls `get()` on the reduction, which throws on an empty catalog. `RatingsReduced` models the `Optional`, and `ListOfAllRatings` requires a non-empty catalog.
- **Cost.** `Main.java` reads `movie.cost`, which `Movie.java` does not declare. The record has the raw `price` string, and the two reports that read `cost` are left out.

## Model

| member | source | states |
|---|---|---|
| Tokenizer.Split | src/streams/java/Movie.java:26 | `line.split(PATTERN, -1)` always yields at least one token, empty trailing tokens included |
| Tokenizer.SplitBoundaries | src/streams/java/Movie.java:11 | position i of the line lies between two tokens exactly when it holds a comma followed by an even number of double quotes |
| Tokenizer.JoinSplit | src/streams/java/Movie.java:26 | joining the tokens with "," gives back the line exactly, so splitting loses no character |
| Tokenizer.SplitCount | src/streams/java/Movie.java:26 | the number of tokens is the number of split-point commas plus one |
| Tokenizer.SplitAppend | src/streams/java/Movie.java:11 | appending "," and text with an even number of quotes appends that text's tokens |
| Tokenizer.SplitAroundQuotedField | src/streams/java/Movie.java:11 | a quoted field between two comma-free fields stays one token although it holds commas (`a,"b,c",d` gives `a`, `"b,c"`, `d`) |
| Tokenizer.SplitJoinQuoted | src/streams/java/Movie.java:11 | quote-free fields written quoted and comma-separated split back into exactly those quoted fields |
| Tokenizer.Tokenize | src/streams/java/Movie.java:26 | the single right-to-left pass that tracks quote parity computes the same tokens as the split rule |
| Numbers.ParseInt | src/streams/java/Movie.java:43 | `Integer.parseInt` accepts exactly a non-empty digit string, or `+` or `-` followed by one, whose signed decimal value fits in 32 bits, and returns that value; any other text, the empty string included, is rejected |
| Numbers.ParseShowInt | src/streams/java/Movie.java:43 | every 32-bit value written in decimal parses back to itself |
| Numbers.ParseRejectsWide | src/streams/java/Movie.java:43-46 | a value outside 32 bits written in decimal is rejected |
| Movies.Format | src/streams/java/Movie.java:50-53 | a token shorter than three characters becomes empty; a longer one is the token minus its first and last characters, an infix two characters shorter |
| Movies.FormatQuoted | src/streams/java/Movie.java:51-52 | unwrapping a double-quoted value gives the value back, the empty value included |
| Movies.FormatIgnoresQuotes | src/streams/java/Movie.java:50-53 | the two removed characters are not checked to be quotes |
| Movies.FormatInt | src/streams/java/Movie.java:40-48 | the year is the parsed value of the unwrapped token when it parses, and -1 otherwise; the result fits in 32 bits |
| Movies.FormatIntQuoted | src/streams/java/Movie.java:40-48 | a quoted 32-bit number reads back as itself |
| Movies.FormatIntSentinelAmbiguous | src/streams/java/Movie.java:45-47 | a literal "-1" and an empty column give the same year, -1 |
| Movies.FormatIntUnquoted | src/streams/java/Movie.java:40-52 | an unquoted "1999" loses its outer digits and reads as 99 |
| Movies.FromTokens | src/streams/java/Movie.java:27-37 | the record built from eleven or more tokens has a 32-bit year |
| Movies.FromQuotedColumns | src/streams/java/Movie.java:27-37 | the eleven columns of a quote-free record, each wrapped in quotes, are read back into that same record, so each field is taken from its own column |
| Movies.FromTokensIgnoresExtra | src/streams/java/Movie.java:25-38 | tokens after the eleventh do not affect the record |
| Movies.Parse | src/streams/java/Movie.java:25-38 | construction succeeds exactly when the line has at least eleven tokens, equivalently at least ten split-point commas, and then builds the record from the split tokens |
| Movies.ParseIgnoresExtraColumns | src/streams/java/Movie.java:25-38 | appending further balanced columns to a parsable line leaves its record unchanged |
| Movies.ParseCatalog | src/streams/java/Movie.java:84 | mapping the constructor over the lines succeeds exactly when every line parses, and then yields one record per line, in order |
| Movies.ToString | src/streams/java/Movie.java:57 | the text is the title, ", ", the studio, " (", the status and ")", in that order |
| Movies.ToStringFields | src/streams/java/Movie.java:57 | given the lengths of the title and the status, the text determines the title, the studio and the status |
| Movies.ParseRender | src/streams/java/Movie.java:25-53 | a record without double quotes in its fields, written as a quoted line, parses back to the same record, commas in fields included |
| Text.Trim | src/streams/java/Main.java:130 | `trim()` removes only characters at or below U+0020, only from the ends, and the result neither starts nor ends with one |
| Text.TrimIdempotent | src/streams/java/Main.java:204 | trimming twice is trimming once |
| Text.JavaSplitWhitespace | src/streams/java/Main.java:130 | `split("\\s+")` pieces hold no white space; for non-empty text, only the first piece may be empty, and only when the text starts with white space; the empty text gives one empty piece |
| Text.WhitespaceSplitJoin | src/streams/java/Main.java:130 | non-empty words without white space, joined by single spaces, split back into exactly those words |
| Text.JavaSplit | src/streams/java/Main.java:204 | `split(",")` gives the limit -1 pieces without the trailing empty ones (`[""]` for the empty string), and no piece holds a comma |
| Text.SplitOnJoin | src/streams/java/Main.java:248 | splitting pieces joined by a separator they do not contain gives the pieces back |
| Text.ReduceJoinIsJoin | src/streams/java/Main.java:248 | the left-to-right `reduce((a, b) -> a + " " + b)` equals joining with " " |
| Collectors.Tally | src/streams/java/Main.java:104-105 | `groupingBy(…, counting())` gives one entry per distinct element, whose count is that element's number of occurrences; the counts sum to the input length |
| Collectors.TallyEntries | src/streams/java/Main.java:136-140 | an entry is in the counting map exactly when its key occurs and its count is the number of occurrences |
| Collectors.SortBy | src/streams/java/Main.java:149 | `sorted(comparator)` yields a permutation of the entries, non-decreasing by rank |
| Collectors.SortByKeepsMap | src/streams/java/Main.java:143-149 | sorting a map's entries keeps distinct keys and the same key set |
| Collectors.SortByTotal | src/streams/java/Main.java:107 | sorting keeps the sum of counts |
| Collectors.KeepWhere | src/streams/java/Main.java:146 | `filter` on keys keeps exactly the entries whose key passes, and distinct keys stay distinct |
| Collectors.Take | src/streams/java/Main.java:186 | `limit(n)` keeps the first min(n, length) elements |
| Collectors.TakeCutoff | src/streams/java/Main.java:183-186 | an entry dropped by the limit from a descending list counts no more than the last entry kept |
| Collectors.MapAppend | src/streams/java/Main.java:130 | `map` over a concatenation is the concatenation of the maps |
| Collectors.FlattenAppend | src/streams/java/Main.java:133 | `flatMap` over a concatenation is the concatenation of the results |
| Collectors.FlattenMember | src/streams/java/Main.java:133 | an element is in the flattened list exactly when it is in one of the lists |
| Collectors.Distinct | src/streams/java/Main.java:206 | `distinct()` keeps each element once, exactly the input's elements, in first-occurrence order |
| Reports.EvenNumbersInRange | src/streams/java/Main.java:42-45 | exactly one hundred values, the i-th being 2(i+1): precisely the even numbers from 2 to 200 |
| Reports.CountedByYears | src/streams/java/Main.java:104-108 | strictly ascending years, exactly the years that occur (the sentinel -1 included), each with its number of movies, the counts summing to the catalog size |
| Reports.CountedByYearsSingleYear | src/streams/java/Main.java:104-108 | a catalog whose movies all share one year reports that year once with the whole catalog as its count |
| Reports.Clean | src/streams/java/Main.java:138 | `replaceAll("[^A-Za-z0-9 ]", "")` keeps exactly the letters, digits and spaces of the word, and never lengthens it |
| Reports.CleanChar | src/streams/java/Main.java:138 | a single character is kept exactly when it is an ASCII letter, digit or space |
| Reports.CleanAppend | src/streams/java/Main.java:138 | cleaning works character by character: the kept characters stay in their order and with their multiplicity |
| Reports.CleanIdempotent | src/streams/java/Main.java:138 | cleaning a cleaned word changes nothing |
| Reports.TitleWords | src/streams/java/Main.java:130 | the words of a trimmed title hold no white space |
| Reports.TitleWordsJoin | src/streams/java/Main.java:130 | a title of non-empty words without blank characters, separated by single spaces, gives back exactly those words |
| Reports.CleanedTitleWordsSingle | src/streams/java/Main.java:130-138 | one movie contributes the cleaned words of its title, in order |
| Reports.CleanedTitleWordsAppend | src/streams/java/Main.java:133 | the words of a catalog are the words of its parts, in catalog order, so every occurrence in every title is counted |
| Reports.CleanedTitleWordsAlphanumeric | src/streams/java/Main.java:130-138 | every cleaned title word consists of ASCII letters and digits only |
| Reports.LongWordCounts | src/streams/java/Main.java:136-146 | the filtered counting map holds exactly the words longer than two characters, each with its number of occurrences |
| Reports.TitlesWordsCountedAndOrdered | src/streams/java/Main.java:127-152 | each cleaned word longer than two characters appears exactly once, is alphanumeric, carries its number of occurrences, and the list is non-decreasing by count |
| Reports.OutStudios | src/streams/java/Main.java:169-174 | a studio is listed exactly when one of its movies has status exactly "Out", and as many times as it has such movies |
| Reports.StudioRanking | src/streams/java/Main.java:174-183 | one entry per released studio with its number of released movies, ordered by descending count |
| Reports.StudiosProductionsOutCounted | src/streams/java/Main.java:169-189 | min(50, number of released studios) distinct studios, each with its number of released movies, non-increasing by count |
| Reports.StudiosCutoff | src/streams/java/Main.java:183-186 | a released studio missing from the report was cut by the limit of fifty and has no more movies than the last one reported |
| Reports.MovieVersions | src/streams/java/Main.java:204 | the versions of a movie are exactly the trimmed `split(",")` pieces of its column; none holds a comma or is untrimmed |
| Reports.VersionPieces | src/streams/java/Main.java:204 | a version is listed exactly when it is a trimmed piece of some movie's versions column |
| Reports.DistinctVersions | src/streams/java/Main.java:202-206 | every trimmed version piece of the catalog exactly once, in first-occurrence order, none holding a comma |
| Reports.RatingsReduced | src/streams/java/Main.java:245-248 | the reduction is empty exactly for an empty catalog, and otherwise the distinct ratings joined by single spaces |
| Reports.ListOfAllRatings | src/streams/java/Main.java:245-249 | for a non-empty catalog, the distinct ratings in first-occurrence order joined by single spaces |
| Reports.RatingsRoundTrip | src/streams/java/Main.java:245-249 | when no rating holds a space, splitting the line on spaces gives back the distinct ratings |

## Left out

- `Movie.stream()` (Movie.java:67-90): opening and reading the data file, the `onClose` handler and the `UncheckedIOException` wrapping are I/O. The catalog is given as a sequence of lines (`ParseCatalog`) or of records.
- `displayParallelThreads`: its output is the identity of worker threads.
- `displayAverageMovieCostByYears` and `displayMostExpensiveMovieByGenre` read `movie.cost`, which `Movie` does not declare. The first also averages costs in floating point and prints them with a locale `NumberFormat`. The second compares floating-point costs inside `Stream.max`.
- Parallel execution, `System.nanoTime` timing, console output and the order in which `main` runs the reports. Every report is modelled sequentially, in the stream's encounter order.
- The order of printed lines of `displayDistinctVersions`. It prints with `forEach` on the parallel stream, which does not keep encounter order. The first-occurrence order stated by `DistinctVersions` is that of the stream before printing. `displayTitlesWordsCountedAndOrdered` is different: its parallel stream ends at `collect`, and it prints from the sequential stream of the entry set. Its lines therefore come out in the ascending-count order that `TitlesWordsCountedAndOrdered` states.
- The regular-expression engine. The split pattern is replaced by the quote-parity predicate it denotes. `\s+` and `[^A-Za-z0-9 ]` are replaced by character predicates.
- Non-ASCII digits in `Integer.parseInt` and code points outside the basic plane. Characters are Dafny `char`s, and only ASCII digits parse.
- Collectors.Tally: lists keys in order of first occurrence. A `HashMap` has no specified order, so no report contract depends on this order beyond the explicit sorts.
- Collectors.SortBy: does not state stability. The entries come from an unordered map, so the relative order of equal counts is unspecified in the program as well.
- Movies.FromTokens: its own contract states only that the year fits in 32 bits. Which column feeds which field is stated through the round trip `FromQuotedColumns`.
- Reports.TitleWords: the round trip `TitleWordsJoin` covers titles whose words are separated by single spaces. For a title with runs of white space, only the absence of white space in the words is stated.
- Text.JavaSplitWhitespace: the round trip `WhitespaceSplitJoin` covers text whose words are separated by single spaces. For other text, only what the pieces may contain is stated.
