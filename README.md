# GitHub activity CLI: the event-feed parser

This project models `GitHubEventsParser`. That class turns the raw body of a
GitHub "user events" response into a list of event records, without a JSON
parser:

- `parse` cuts the body at every `},{`.
- For each entry, it reads five fields by literal prefix/terminator search: the
  type, the repository name, the creation date, the action, and the push size.
- It skips entries that lack a type, a repository or a date.
- It appends one record per remaining entry, in input order.
- A date that `Instant.parse` rejects, or a size that `Integer.parseInt`
  rejects, escapes as an exception.

Files:

- `wrappers.dfy`: `Option` (a Java `null`) and `Result` (a value, or the
  exception thrown instead).
- `java_text.dfy`, module `JavaText`: the library behaviour the parser relies
  on.
  - `String.indexOf(str, from)`.
  - `String.split` around a delimiter the regex matches literally, including
    Java's rules for the no-match case and for dropping trailing empty strings.
  - `Integer.parseInt` in radix 10, with `Integer.toString` as its inverse.
- `events_parser.dfy`, module `EventsParser`:
  - `Extract`, the private `extract`.
  - `ProcessEntry`, the loop body of `parse` for one entry.
  - `Gather`, the loop as a left fold over entry outcomes; it is the
    specification.
  - `ParseWith`, the loop itself, as a method proved equal to `Gather`.
  - `Parse`, the source's `parse`.
  - Lemmas on order, skipping and failure.

`parse` does no brace repair, trimming or count limit. When `},{` occurs,
`split` keeps every piece except trailing empty ones; otherwise it returns the
body whole, even when the body is empty. A malformed date throws. The size is
read up to the next comma, so a size followed by whitespace or a brace before
that comma is rejected by `Integer.parseInt` and throws; with no comma after
it, the size counts as absent and the commit count is 0.

The event record has five fields: type, repository, creation instant, commit
count and action. The source builds it with a five-argument constructor. The
`GitHubEvent` class it names is abstract and has only a two-argument
constructor (`model/GitHubEvent.java:11,17`). The model therefore uses a plain
record.

The repository name can be located by either of two rules, given as a
`RepoRule`:

- `LiteralPattern` is what the code does (see Findings below).
- `RepoThenName` is what the key evidently intends: find `"repo":{`, then a
  `"name":"` that no `}` separates from it, and read its value up to the next
  quote.

`Parse` uses `LiteralPattern`. Every lemma about the loop holds for both rules.

## Model

| member | source | states |
|---|---|---|
| `JavaText.IndexOf` | src/main/java/io/github/jabejaranovela/githubactivity/service/GitHubEventsParser.java:33-36 | the result is -1 exactly when the pattern occurs nowhere at or after `from`; otherwise it is the first such occurrence |
| `JavaText.Split` | src/main/java/io/github/jabejaranovela/githubactivity/service/GitHubEventsParser.java:13 | the body comes back whole, as a single entry, exactly when `},{` does not occur in it; otherwise the entries are the leading pieces between delimiter occurrences, in order |
| `JavaText.SplitAllPiecesAvoid` | src/main/java/io/github/jabejaranovela/githubactivity/service/GitHubEventsParser.java:13 | no piece between delimiter occurrences contains the delimiter |
| `JavaText.JoinSplitAll` | src/main/java/io/github/jabejaranovela/githubactivity/service/GitHubEventsParser.java:13 | joining all the pieces with the delimiter gives back the input |
| `JavaText.DropTrailingEmpty` | src/main/java/io/github/jabejaranovela/githubactivity/service/GitHubEventsParser.java:13 | the result is a prefix of the list; only empty strings were dropped; its last element, if any, is non-empty |
| `JavaText.SplitRejoins` | src/main/java/io/github/jabejaranovela/githubactivity/service/GitHubEventsParser.java:13 | `split`'s entries are a prefix of the full piece list, the rest are empty, and joining the full list with `},{` reproduces the body |
| `JavaText.SplitPiecesAvoidDelimiter` | src/main/java/io/github/jabejaranovela/githubactivity/service/GitHubEventsParser.java:13 | no entry contains `},{` |
| `JavaText.SplitLastPieceNonEmpty` | src/main/java/io/github/jabejaranovela/githubactivity/service/GitHubEventsParser.java:13 | once the delimiter occurs, the last entry kept is never empty |
| `JavaText.SplitOfDelimiterAlone` | src/main/java/io/github/jabejaranovela/githubactivity/service/GitHubEventsParser.java:13 | a body that is exactly `},{` yields no entries at all |
| `JavaText.SplitPieceChars` | src/main/java/io/github/jabejaranovela/githubactivity/service/GitHubEventsParser.java:13 | every character of an entry occurs in the body |
| `JavaText.ParseInt` | src/main/java/io/github/jabejaranovela/githubactivity/service/GitHubEventsParser.java:24 | succeeds exactly on an optional sign followed by one or more decimal digits whose value fits in an `int`; the result is that signed decimal value |
| `JavaText.DigitsRoundTrip` | src/main/java/io/github/jabejaranovela/githubactivity/service/GitHubEventsParser.java:24 | reading the decimal digits of `n` gives `n` |
| `JavaText.ParseIntToString` | src/main/java/io/github/jabejaranovela/githubactivity/service/GitHubEventsParser.java:24 | `parseInt(toString(n)) == n` for every `int` |
| `EventsParser.Extract` | src/main/java/io/github/jabejaranovela/githubactivity/service/GitHubEventsParser.java:32-39 | absent exactly when `prefix` is missing or no `end` follows its first occurrence; otherwise the text between the first `prefix` and the first `end` after it |
| `EventsParser.ExtractSplitsSource` | src/main/java/io/github/jabejaranovela/githubactivity/service/GitHubEventsParser.java:33-38 | `source == source[..start] + prefix + r + end + rest`, where `start` is the first occurrence of `prefix`; `|prefix| + |r| + |end| <= |source|` |
| `EventsParser.ExtractValueAvoidsEnd` | src/main/java/io/github/jabejaranovela/githubactivity/service/GitHubEventsParser.java:36-38 | the extracted value never contains the terminator |
| `EventsParser.ExtractFinds` | src/main/java/io/github/jabejaranovela/githubactivity/service/GitHubEventsParser.java:32-39 | given the first prefix and the first terminator after it, the extraction is the text between them |
| `EventsParser.Entries` | src/main/java/io/github/jabejaranovela/githubactivity/service/GitHubEventsParser.java:13 | no entry the loop visits contains `},{` |
| `EventsParser.RepoField` | src/main/java/io/github/jabejaranovela/githubactivity/service/GitHubEventsParser.java:16 | under either rule, a repository name holds no quote and is shorter than its entry |
| `EventsParser.ProcessEntry` | src/main/java/io/github/jabejaranovela/githubactivity/service/GitHubEventsParser.java:15-26 | an entry is skipped exactly when type, repository or date is missing. A kept entry throws exactly when its date does not parse, or its size is present and not an `int`; a date error is reported before a size error. Otherwise the record carries the extracted fields, and its commit count is 0 without a size and the parsed size with one |
| `EventsParser.Gather` | src/main/java/io/github/jabejaranovela/githubactivity/service/GitHubEventsParser.java:14-27 | a successful parse has at most as many events as entries |
| `EventsParser.ParseWith` | src/main/java/io/github/jabejaranovela/githubactivity/service/GitHubEventsParser.java:10-30 | the loop over the split entries, appending to a list and returning at the first exception, returns exactly the fold `Gather` of the entry outcomes |
| `EventsParser.Parse` | src/main/java/io/github/jabejaranovela/githubactivity/service/GitHubEventsParser.java:10-30 | `parse` with the source's repository search equals the fold, and returns at most one event per entry |
| `EventsParser.FailureIsFinal` | src/main/java/io/github/jabejaranovela/githubactivity/service/GitHubEventsParser.java:23-24 | after an exception, later entries change nothing |
| `EventsParser.GatherKeepsOrder` | src/main/java/io/github/jabejaranovela/githubactivity/service/GitHubEventsParser.java:13-27 | a successful parse has a strictly increasing map from events to their entries; each of those entries produced its event and every other entry was skipped |
| `EventsParser.SkippedEntryIsInvisible` | src/main/java/io/github/jabejaranovela/githubactivity/service/GitHubEventsParser.java:21 | removing a skipped entry from anywhere in the list leaves the result unchanged |
| `EventsParser.GatherFailsIffSomeEntryFails` | src/main/java/io/github/jabejaranovela/githubactivity/service/GitHubEventsParser.java:23-24 | the parse throws exactly when some kept entry has a bad date or size |
| `EventsParser.GatherReportsFirstFailure` | src/main/java/io/github/jabejaranovela/githubactivity/service/GitHubEventsParser.java:23-24 | the exception that escapes is that of the first entry that throws |
| `EventsParser.GatherAllSkipped` | src/main/java/io/github/jabejaranovela/githubactivity/service/GitHubEventsParser.java:21 | when every entry is skipped, the result is the empty list |
| `EventsParser.LiteralRepoKeyNeedsBackslash` | src/main/java/io/github/jabejaranovela/githubactivity/service/GitHubEventsParser.java:16 | the literal repository key is never found in an entry without a backslash |
| `EventsParser.AsWrittenParseFindsNothing` | src/main/java/io/github/jabejaranovela/githubactivity/service/GitHubEventsParser.java:13-21 | as written, `parse` returns an empty list for every body without a backslash |
| `EventsParser.RepoThenNameFindsName` | src/main/java/io/github/jabejaranovela/githubactivity/service/GitHubEventsParser.java:16 | with the repaired rule, the repository is the quote-free value of the first `"name":"` after the first `"repo":{`, when no `}` lies between them |
| `EventsParser.RepoThenNameStaysInRepoObject` | src/main/java/io/github/jabejaranovela/githubactivity/service/GitHubEventsParser.java:16 | with the repaired rule, a `}` that closes the repository object before any `"name":"` leaves the entry without a repository, as `[^}]*` cannot cross a `}` |

## Left out

- `api/GitHubApiClient.java`, `cli/Main.java` and `service/GitHubService.java`
  are left out. They issue the HTTP request, map status codes to exceptions and
  print to the console, which is I/O.
- `model/GitHubEvent.java` is left out. It has getters, and `formatDateTime`
  depends on the system time zone and `DateTimeFormatter`.
- `Instant.parse` is not modelled. ISO-8601 parsing is a parameter
  `parseInstant: string -> Option<Instant>`, where `None` stands for
  `DateTimeParseException`. An `Instant` is a pair of epoch second and
  nanosecond.
- JavaText.ParseInt: accepts only ASCII digits. Java's `Character.digit`
  also accepts other Unicode decimal digits.
- JavaText.Split: does not model the regex engine. The regex `\},\{` matches
  exactly the text `},{`, which cannot overlap itself. So a literal, leftmost,
  non-overlapping search gives the same pieces.
- A `null` body (`NullPointerException`) is not modelled. The caller always
  passes a response body.
- The event list is a local sequence that the loop extends. Nothing else
  aliases the Java `ArrayList` before it is returned.
- `GitHubEventsParser` builds the list and does no grouping of events,
  commit totals or line formatting, so none is modelled.
- JavaText.IndexOf: counts Unicode scalar values, where Java's `String`
  counts UTF-16 code units. The index differs once a supplementary character
  precedes the match (`"😀x".indexOf("x")` is 2 in Java, 1 here). The
  substrings `extract` returns, and so the result of `parse`, are the same.
- EventsParser.RepoField: the repaired rule is not a regex engine. It uses
  only the first `"repo":{`, where a regex search would go on to a later one,
  and the first `"name":"` inside it, where the greedy `[^}]*` picks the last
  one before the first `}`. In GitHub's feed the repository object holds one
  flat `name`, and there the two agree.

## Findings

| source | as written | input that shows it | evidently intended | confidence | as-written member | corrected member |
|---|---|---|---|---|---|---|
| src/main/java/io/github/jabejaranovela/githubactivity/service/GitHubEventsParser.java:16 | the repository key `"repo":\{[^}]*"name":"` is written as a regular expression but located with `indexOf` (line 33), so it is searched as literal text, backslash included | `[{"type":"WatchEvent","repo":{"id":1,"name":"acme/widget"},"created_at":"2024-01-01T00:00:00Z"}]` gives an empty list instead of one event, as does every body without a backslash | the repository name is the value of `"name":"` inside the `"repo":{` object, before its closing `}` | high (not executed) | `EventsParser.AsWrittenParseFindsNothing` | `EventsParser.RepoThenNameFindsName` |
