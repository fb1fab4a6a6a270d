# Game metadata pipelines, modelled in Dafny

This project models the deterministic core of a two-pipeline fetcher of
video-game metadata. The IGDB pipeline obtains an OAuth token through a
file cache, pages through the games endpoint by offset, flattens each game
into a fixed 15-column CSV row and rewrites the CSV after every successful
page. The RAWG pipeline pages through the games list, replaces a missing
description by the first sentence of an encyclopedia summary, flattens each
game into a fixed 10-column row and writes the CSV once, after the loop.

Everything that talks to the outside world is a parameter:

- the clock is an integer `now`;
- the token cache file is an `Option<CachedToken>`;
- the token endpoint's answer is a `TokenReply`;
- each IGDB request is a function from offset to `Result<seq<Json>>`;
- each RAWG request is a function from page number to `RawgReply`;
- the encyclopedia lookup is a function from a title to `Option<string>`,
  which is `Some(summary)` when the page exists.

A Python exception is `Err` in the model. The model does not make
well-formed input a precondition. A game that makes the source raise is a
game whose row is `Err`, and each pipeline handles that as the source does:

- IGDB: the exception is caught by the page's `try`. This happens after
  the `extend`, so the games stay accumulated and the file keeps the rows
  written before the bad one.
- RAWG: nothing catches the exception, so the run ends and no CSV is
  written.

Modules:

- `Wrappers`: `Option` and `Result`.
- `Text`: Python's `str.join` and `str.split`, and the proof that they
  invert each other.
- `Json`: decoded JSON values and the Python operations the pipelines
  apply to them (truthiness, `dict.get`, subscription, iteration), plus
  the list-of-names flattening.
- `Csv`: rows as sequences of (column, value) pairs in header order, and
  what `csv.DictWriter` writes.
- `Igdb`: `src/fetch_igdb.py`.
- `Rawg`: `src/fetch_rawg.py`.

Three behaviours of the code worth noting:

- The RAWG description is replaced when it is falsy (`None`, `""`, and so
  on), not only when it is absent.
- A summary without a period gives the whole summary followed by `"."`.
- A non-200 RAWG page is skipped, but a RAWG request that raises is not:
  there is no `try` there, so it ends the run.

## Model

| member | source | states |
|---|---|---|
| `Text.Join` | src/fetch_igdb.py:120-130 | `sep.join(parts)` is empty for no parts, starts with the first part, and has the separator right after it when more parts follow; `Text.SplitJoin` and `Text.JoinSplit` are its round trips with `split` |
| `Text.FindSepFrom` | src/fetch_rawg.py:21 | the index returned from `from` on is the leftmost occurrence of the separator at or after `from`, or the length when there is none |
| `Text.FindSep` | src/fetch_rawg.py:21 | the index returned is the leftmost occurrence of the separator, or the length when there is none |
| `Text.FindSepIs` | src/fetch_rawg.py:21 | an occurrence before which no character equals the separator's first one is the one `split` cuts at |
| `Text.Split` | src/fetch_rawg.py:21 | `s.split(sep)` has at least one piece, and its first piece is the text before the first separator |
| `Text.JoinSplit` | src/fetch_rawg.py:21 | joining the pieces of a split with the same separator gives the original string back |
| `Text.SplitJoin` | src/fetch_igdb.py:120 | splitting a `sep.join(parts)` gives `parts` back, when no part contains the separator's first character |
| `Json.Get` | src/fetch_igdb.py:125 | `x.get(key)` succeeds exactly on dicts; a present key gives its stored value and a missing key gives `None` |
| `Json.NamesAt` | src/fetch_igdb.py:120 | success gives one name per element, in element order, each being the string at the path in that element; failure means some element lacks it |
| `Json.JoinedNames` | src/fetch_igdb.py:120-121 | the `", ".join` of the element names succeeds exactly when the field is an empty string, an empty dict, or a list whose every element has a string at the path |
| `Json.JoinedNamesSplitBack` | src/fetch_igdb.py:120-121 | a joined column is `""` for an empty list and, for any list, the element names in input order joined by `", "`; when no name contains a comma it also splits back into exactly those names |
| `Json.JoinedNamesExample` | src/fetch_igdb.py:120 | `[{"name":"RPG"},{"name":"Action"}]` flattens to `"RPG, Action"` and `[]` to `""` |
| `Igdb.GetTwitchOAuthToken` | src/fetch_igdb.py:21-50 | the cached token is reused iff a cache exists and `now < expires_at`; otherwise status 200 issues the reply's token and saves it with `expires_at = now + expires_in - 60`, and any other status fails |
| `Igdb.FreshCacheIgnoresProvider` | src/fetch_igdb.py:23-28 | while the cache is fresh the outcome does not depend on the provider, so no request is made |
| `Igdb.IssuedTokenLifetime` | src/fetch_igdb.py:26-45 | a token just issued is reused by every later call before `now + expires_in - 60` and is replaced from then on |
| `Igdb.IgdbRecord` | src/fetch_igdb.py:116-133 | a game's row can be built iff the game is well-formed, and a built row has exactly the 15 `CSV_HEADERS` columns in their order |
| `Igdb.ListColumnJoinsNames` | src/fetch_igdb.py:120-130 | genres, platforms, developers (via `company.name`), game_modes, player_perspectives and themes hold their names in input order joined by `", "`, and `""` when the field is absent or an empty list; comma-free names split back out |
| `Igdb.ScalarColumns` | src/fetch_igdb.py:118-132 | id, name, first_release_date, rating, summary, storyline and total_rating copy the game's field (`None` when absent) |
| `Igdb.NestedColumns` | src/fetch_igdb.py:125-128 | cover_url and franchise read `url` and `name` of the nested object, and are `None` when the object or its key is missing |
| `Csv.WriteRows` | src/fetch_igdb.py:112-133 | the header is kept; line i is the row of record i, written only when that record could be built; all lines are written iff every record can be built, and otherwise writing stops at the first record that raises |
| `Igdb.IgdbSave` | src/fetch_igdb.py:111-133 | the rewritten file has the fixed header and line i built from game i; it holds one line per game exactly when all games are well-formed |
| `Igdb.FetchIgdbGames` | src/fetch_igdb.py:80-108 | exactly 10 requests are made, at offsets 0, 500, …, 4500, whatever the outcomes; the accumulator is the successful pages' games in order; the file is written by this run, as the save of the whole accumulator, exactly when some page succeeded, and is not written by this run otherwise |
| `Igdb.CollectedGrows` | src/fetch_igdb.py:93 | the accumulator after m requests is a prefix of the accumulator after n ≥ m requests |
| `Igdb.CollectedFromSuccessfulPages` | src/fetch_igdb.py:89-103 | a game is accumulated iff some successful page returned it |
| `Igdb.FailedPageActsAsEmpty` | src/fetch_igdb.py:101-105 | a failed page gathers exactly what an empty page would: it is skipped, not retried |
| `Igdb.CollectedCount` | src/fetch_igdb.py:81-105 | when every page succeeds with `size` games, n pages gather `n * size` games, so short pages do not stop the loop |
| `Rawg.FirstSentenceShape` | src/fetch_rawg.py:21 | the result ends with `"."` and has no other period; the text before that period is a prefix of the summary and ends at the summary's first period |
| `Rawg.FirstPieceBeforeDot` | src/fetch_rawg.py:21 | the first piece of `split(".")` contains no period and is followed by one when it is not the whole string |
| `Rawg.FirstSentenceOfText` | src/fetch_rawg.py:21 | a summary `p + "." + t`, where `p` has no period, gives `p + "."` |
| `Rawg.FirstSentenceIdempotent` | src/fetch_rawg.py:21 | taking the first sentence of a first sentence changes nothing |
| `Rawg.WikipediaSummary` | src/fetch_rawg.py:18-24 | the result is `"No summary available"` exactly when the page does not exist |
| `Rawg.RawgRecord` | src/fetch_rawg.py:53-68 | a game's row can be built iff the game is well-formed, and a built row has exactly the 10 CSV keys in their order |
| `Rawg.DescriptionFallback` | src/fetch_rawg.py:54-67 | a truthy description is kept verbatim; otherwise the description is the first sentence of the page titled with the game's name, or the placeholder when there is no page |
| `Rawg.ListColumnJoinsNames` | src/fetch_rawg.py:61-62 | genres hold each element's `name` and platforms each element's `platform.name`, in input order joined by `", "`, and `""` when absent or an empty list; comma-free names split back out |
| `Rawg.CompanyColumnJoinsNames` | src/fetch_rawg.py:63-64 | developers and publishers are `""` when the field is absent or falsy, and otherwise hold the element names in input order joined by `", "`; comma-free names split back out |
| `Rawg.CompanyNamesSplitBack` | src/fetch_rawg.py:63-64 | a company cell is `""` for a falsy field, and otherwise the element names in input order joined by `", "`, which split back out when comma-free |
| `Rawg.ScalarColumns` | src/fetch_rawg.py:58-66 | id, name, released, background_image and rating copy the game's field (`None` when absent) |
| `Rawg.ParseAll` | src/fetch_rawg.py:51-69 | parsing succeeds iff every game is well-formed, and then gives one row per game with row i built from game i |
| `Rawg.ParseGameData` | src/fetch_rawg.py:51-69 | the loop's result equals `ParseAll`: same length and order, and an exception on any game aborts the call |
| `Rawg.FetchRawgGames` | src/fetch_rawg.py:27-48 | pages 1, 2, … are requested in order; a run that completes requests all 10 pages and writes one CSV, after the loop, whose lines are the gathered rows; a run that raises stops at the first page that raised and writes nothing |
| `Rawg.RawgCsv` | src/fetch_rawg.py:72-77 | `save_to_csv` writes the `keys` header and one line per row; for a row laid out in `keys` order, value j of line i is that row's value of column `keys[j]` |
| `Rawg.GatheredErrSticks` | src/fetch_rawg.py:35-39 | once a page raised, the run's outcome stays an error |
| `Rawg.Non200ActsAsEmpty` | src/fetch_rawg.py:37-45 | a non-200 page gathers exactly what a 200 page with no results would: it is skipped, not retried |
| `Rawg.PageRowsCount` | src/fetch_rawg.py:37-39 | a status-200 page whose games are all well-formed adds one row per game |
| `Rawg.GatheredLength` | src/fetch_rawg.py:28-45 | when every page answers 200 with `size` well-formed games, pages 1..n gather `n * size` rows, so short pages do not stop the loop |
| `Rawg.GatheredCount` | src/fetch_rawg.py:28-47 | when every page answers 200 with `size` well-formed games, the CSV has `n * size` lines, so short pages do not stop the run |

## Left out

- HTTP: `requests.post`, `requests.get` and `IGDBWrapper.api_request` are replaced by the reply parameters. The query text, the request parameters (`page_size` 40, limit 500), the client credentials and the bytes are not modelled.
- Only the `access_token` and `expires_at` fields of the token cache are modelled. The file itself is not: its reading, writing and JSON encoding are left out. A malformed cache file is not modelled either.
- Igdb.GetTwitchOAuthToken: the clock is an integer, not the float `time.time()`. The source reads the clock twice: once to test freshness and again, after the token request, to compute `expires_at`. The model uses one reading `now` for both, so its stored expiry is earlier than the source's by the request's duration. The exception's message (the response text) is not kept.
- The module-level token acquisition and wrapper setup at import time, `load_dotenv` and environment reads are left out. So is `src/main.py`, which only calls the two pipelines in turn.
- The encyclopedia library is a total function from a title to an optional summary. Its own failures and network errors are not modelled.
- `time.sleep` delays and `print` logging have no effect on the modelled state and are left out.
- Igdb.FetchIgdbGames: a page's payload is modelled as a list of games. A non-list JSON payload, which `extend` would iterate (a dict's keys, a string's characters), is not distinguished from the list the caller supplies in its place.
- CSV quoting, escaping, encoding and the header line's bytes are not modelled. A file is its header and its lines of values. `None` and the joined strings are values; how `DictWriter` renders them is not modelled.
- Numbers are opaque reals that are only passed through. Python's distinction between `int` and `float` is not modelled.
- A JSON object is a map. Duplicate keys and key order inside a game do not affect any modelled column, so they are not modelled.
