/** The IGDB pipeline: the cached OAuth token, the flattening of one game into
    a CSV row, the incremental CSV rewrite, and the bounded offset loop. */
module Igdb {
  import opened Wrappers
  import opened Json
  import opened Csv

  // ---------------------------------------------------------------------
  // OAuth token cache

  /** Seconds taken off the provider's lifetime before a token counts as expired. */
  const ExpiryMargin: int := 60

  /** The cache file's contents: the token and the time it stops being reused. */
  datatype CachedToken = CachedToken(accessToken: string, expiresAt: int)

  /** What the token endpoint answers to a client-credentials request. */
  datatype TokenReply = TokenReply(status: int, accessToken: string, expiresIn: int)

  /** `Reused`: the cached token, with no request. `Issued`: a new token and the
      cache written for it. `Failed`: the provider refused; an exception is raised. */
  datatype TokenOutcome =
    | Reused(token: string)
    | Issued(token: string, saved: CachedToken)
    | Failed

  predicate IsFresh(cache: Option<CachedToken>, now: int)
  {
    cache.Some? && now < cache.value.expiresAt
  }

  /** `cache` is the token file (None when absent), `now` the clock, and
      `reply` what the provider would answer if asked. */
  function GetTwitchOAuthToken(cache: Option<CachedToken>, now: int, reply: TokenReply): (r: TokenOutcome)
    ensures r.Reused? <==> IsFresh(cache, now)
    ensures r.Reused? ==> r.token == cache.value.accessToken
    ensures r.Issued? <==> !IsFresh(cache, now) && reply.status == 200
    ensures r.Issued? ==> r.token == reply.accessToken && r.saved.accessToken == reply.accessToken
    ensures r.Issued? ==> r.saved.expiresAt == now + reply.expiresIn - ExpiryMargin
    ensures r.Failed? <==> !IsFresh(cache, now) && reply.status != 200
  {
    if cache.Some? && now < cache.value.expiresAt then Reused(cache.value.accessToken)
    else if reply.status == 200 then
      Issued(reply.accessToken, CachedToken(reply.accessToken, now + reply.expiresIn - ExpiryMargin))
    else Failed
  }

  /** While the cache is fresh the provider's answer plays no part: no request is made. */
  lemma FreshCacheIgnoresProvider(cache: Option<CachedToken>, now: int, reply1: TokenReply, reply2: TokenReply)
    requires IsFresh(cache, now)
    ensures GetTwitchOAuthToken(cache, now, reply1) == GetTwitchOAuthToken(cache, now, reply2)
  {
  }

  /** A newly issued token is reused by every later run until `expires_in - 60`
      seconds have passed, and is replaced from then on. */
  lemma IssuedTokenLifetime(cache: Option<CachedToken>, now: int, reply: TokenReply, later: int, laterReply: TokenReply)
    requires GetTwitchOAuthToken(cache, now, reply).Issued?
    ensures var saved := GetTwitchOAuthToken(cache, now, reply).saved;
      GetTwitchOAuthToken(Some(saved), later, laterReply)
        == if later < now + reply.expiresIn - ExpiryMargin then Reused(reply.accessToken)
           else GetTwitchOAuthToken(None, later, laterReply)
  {
  }

  // ---------------------------------------------------------------------
  // Flattening one game

  const CsvHeaders: seq<string> := [
    "id", "name", "genres", "platforms", "first_release_date", "rating", "summary",
    "cover_url", "developers", "game_modes", "franchise", "player_perspectives",
    "themes", "storyline", "total_rating"
  ]

  /** The games whose row can be built without an exception. */
  predicate WellFormedGame(game: Json)
  {
    && game.JObj?
    && IsNameList(Lookup(game, "genres", EmptyList), ["name"])
    && IsNameList(Lookup(game, "platforms", EmptyList), ["name"])
    && Lookup(game, "cover", EmptyDict).JObj?
    && IsNameList(Lookup(game, "involved_companies", EmptyList), ["company", "name"])
    && IsNameList(Lookup(game, "game_modes", EmptyList), ["name"])
    && Lookup(game, "franchise", EmptyDict).JObj?
    && IsNameList(Lookup(game, "player_perspectives", EmptyList), ["name"])
    && IsNameList(Lookup(game, "themes", EmptyList), ["name"])
  }

  /** The dict `save_to_csv` builds for one game, or `Err` where building it raises. */
  function IgdbRecord(game: Json): (r: Result<Row>)
    ensures r.Ok? <==> WellFormedGame(game)
    ensures r.Ok? ==> HasHeader(r.value, CsvHeaders)
  {
    if !game.JObj? then Err
    else
      var genres :- JoinedNames(Lookup(game, "genres", EmptyList), ["name"]);
      var platforms :- JoinedNames(Lookup(game, "platforms", EmptyList), ["name"]);
      var coverUrl :- Get(Lookup(game, "cover", EmptyDict), "url");
      var developers :- JoinedNames(Lookup(game, "involved_companies", EmptyList), ["company", "name"]);
      var gameModes :- JoinedNames(Lookup(game, "game_modes", EmptyList), ["name"]);
      var franchise :- Get(Lookup(game, "franchise", EmptyDict), "name");
      var perspectives :- JoinedNames(Lookup(game, "player_perspectives", EmptyList), ["name"]);
      var themes :- JoinedNames(Lookup(game, "themes", EmptyList), ["name"]);
      Ok([
        ("id", Lookup(game, "id", JNull)),
        ("name", Lookup(game, "name", JNull)),
        ("genres", JStr(genres)),
        ("platforms", JStr(platforms)),
        ("first_release_date", Lookup(game, "first_release_date", JNull)),
        ("rating", Lookup(game, "rating", JNull)),
        ("summary", Lookup(game, "summary", JNull)),
        ("cover_url", coverUrl),
        ("developers", JStr(developers)),
        ("game_modes", JStr(gameModes)),
        ("franchise", franchise),
        ("player_perspectives", JStr(perspectives)),
        ("themes", JStr(themes)),
        ("storyline", Lookup(game, "storyline", JNull)),
        ("total_rating", Lookup(game, "total_rating", JNull))
      ])
  }

  /** Every joined column holds its field's names in input order, and `""` when
      the field is absent or an empty list. */
  lemma ListColumnJoinsNames(game: Json)
    requires IgdbRecord(game).Ok?
    ensures var row := IgdbRecord(game).value;
      && ListedNames(row[2].1, Lookup(game, "genres", EmptyList), ["name"])
      && ListedNames(row[3].1, Lookup(game, "platforms", EmptyList), ["name"])
      && ListedNames(row[8].1, Lookup(game, "involved_companies", EmptyList), ["company", "name"])
      && ListedNames(row[9].1, Lookup(game, "game_modes", EmptyList), ["name"])
      && ListedNames(row[11].1, Lookup(game, "player_perspectives", EmptyList), ["name"])
      && ListedNames(row[12].1, Lookup(game, "themes", EmptyList), ["name"])
  {
    JoinedNamesSplitBack(Lookup(game, "genres", EmptyList), ["name"]);
    JoinedNamesSplitBack(Lookup(game, "platforms", EmptyList), ["name"]);
    JoinedNamesSplitBack(Lookup(game, "involved_companies", EmptyList), ["company", "name"]);
    JoinedNamesSplitBack(Lookup(game, "game_modes", EmptyList), ["name"]);
    JoinedNamesSplitBack(Lookup(game, "player_perspectives", EmptyList), ["name"]);
    JoinedNamesSplitBack(Lookup(game, "themes", EmptyList), ["name"]);
  }

  /** Plain columns copy the game field named like the column (`None` when absent). */
  lemma ScalarColumns(game: Json)
    requires IgdbRecord(game).Ok?
    ensures var row := IgdbRecord(game).value;
      && row[0].1 == Lookup(game, "id", JNull)
      && row[1].1 == Lookup(game, "name", JNull)
      && row[4].1 == Lookup(game, "first_release_date", JNull)
      && row[5].1 == Lookup(game, "rating", JNull)
      && row[6].1 == Lookup(game, "summary", JNull)
      && row[13].1 == Lookup(game, "storyline", JNull)
      && row[14].1 == Lookup(game, "total_rating", JNull)
  {
    assert WellFormedGame(game);
  }

  /** `cover_url` and `franchise` read a key of a nested object, and are `None`
      when the object or its key is missing. */
  lemma NestedColumns(game: Json)
    requires IgdbRecord(game).Ok?
    ensures var row := IgdbRecord(game).value;
      && row[7].1 == Lookup(Lookup(game, "cover", EmptyDict), "url", JNull)
      && row[10].1 == Lookup(Lookup(game, "franchise", EmptyDict), "name", JNull)
  {
  }

  // ---------------------------------------------------------------------
  // Writing the CSV

  /** `save_to_csv(game_data)`: the file is rewritten from scratch with the header
      and one line per game, in order; a game whose row raises ends the writing. */
  function IgdbSave(games: seq<Json>): (w: CsvWrite)
    ensures w.file.header == CsvHeaders
    ensures w.completed <==> forall i :: 0 <= i < |games| ==> WellFormedGame(games[i])
    ensures w.completed ==> |w.file.lines| == |games|
    ensures forall i :: 0 <= i < |w.file.lines| ==>
      i < |games| && IgdbRecord(games[i]).Ok? && w.file.lines[i] == Line(IgdbRecord(games[i]).value)
    ensures !w.completed ==> |w.file.lines| < |games| && !WellFormedGame(games[|w.file.lines|])
  {
    var rows := seq(|games|, i requires 0 <= i < |games| => IgdbRecord(games[i]));
    assert forall i :: 0 <= i < |games| ==> rows[i] == IgdbRecord(games[i]);
    WriteRows(CsvHeaders, rows)
  }

  /** The file `save_to_csv` leaves on disk, whether or not the writing completed. */
  function SavedFile(games: seq<Json>): CsvFile
  {
    IgdbSave(games).file
  }

  // ---------------------------------------------------------------------
  // The offset loop

  const MaxGames: int := 5000
  const BatchSize: int := 500
  const PageCount: nat := 10

  /** Outcome of the `i`-th request, the one made at offset `i * BatchSize`. */
  function PageOutcome(pages: int -> Result<seq<Json>>, i: nat): Result<seq<Json>>
  {
    pages(i * BatchSize)
  }

  /** The games gathered by the first `n` requests: the successful pages' games, in request order. */
  function Collected(pages: int -> Result<seq<Json>>, n: nat): seq<Json>
  {
    if n == 0 then []
    else
      match PageOutcome(pages, n - 1)
      case Ok(games) => Collected(pages, n - 1) + games
      case Err => Collected(pages, n - 1)
  }

  /** `fetch_igdb_games`. `pages(offset)` is the outcome of the request at that
      offset: the decoded games, or `Err` when the request or decoding raised.
      Returns the offsets requested, the accumulated games and the CSV file as
      left on disk (None when it was never written). */
  method FetchIgdbGames(pages: int -> Result<seq<Json>>) returns (requested: seq<int>, allGames: seq<Json>, csv: Option<CsvFile>)
    ensures |requested| == PageCount
    ensures forall i :: 0 <= i < |requested| ==> requested[i] == i * BatchSize && requested[i] < MaxGames
    ensures allGames == Collected(pages, PageCount)
    ensures csv.Some? <==> exists i :: 0 <= i < PageCount && PageOutcome(pages, i).Ok?
    ensures csv.Some? ==> csv.value == SavedFile(allGames)
  {
    var offset := 0;
    requested, allGames, csv := [], [], None;
    ghost var n: nat := 0;
    while offset < MaxGames
      invariant offset == n * BatchSize && n <= PageCount
      invariant |requested| == n
      invariant forall i :: 0 <= i < n ==> requested[i] == i * BatchSize
      invariant allGames == Collected(pages, n)
      invariant csv.Some? <==> exists i :: 0 <= i < n && PageOutcome(pages, i).Ok?
      invariant csv.Some? ==> csv.value == SavedFile(allGames)
    {
      requested := requested + [offset];
      var outcome := pages(offset);
      assert outcome == PageOutcome(pages, n);
      if outcome.Ok? {
        allGames := allGames + outcome.value;
        // The file is rewritten from the whole accumulator; a row that raises
        // only ends the writing, the games stay accumulated.
        csv := Some(SavedFile(allGames));
      }
      offset := offset + BatchSize;
      n := n + 1;
    }
  }

  /** The accumulator only ever grows: what the first `m` requests gathered is a prefix of what `n >= m` gather. */
  lemma {:induction false} CollectedGrows(pages: int -> Result<seq<Json>>, m: nat, n: nat)
    requires m <= n
    ensures Collected(pages, m) <= Collected(pages, n)
    decreases n
  {
    if m < n {
      CollectedGrows(pages, m, n - 1);
    }
  }

  /** A game is gathered exactly when some successful page returned it. */
  lemma {:induction false} CollectedFromSuccessfulPages(pages: int -> Result<seq<Json>>, n: nat, g: Json)
    ensures g in Collected(pages, n) <==> exists i :: 0 <= i < n && PageOutcome(pages, i).Ok? && g in PageOutcome(pages, i).value
  {
    if n > 0 {
      CollectedFromSuccessfulPages(pages, n - 1, g);
    }
  }

  /** A failed request is skipped, not retried: it gathers exactly what an empty page would. */
  lemma {:induction false} FailedPageActsAsEmpty(pages: int -> Result<seq<Json>>, pages': int -> Result<seq<Json>>, n: nat)
    requires forall i :: 0 <= i < n ==>
      PageOutcome(pages', i) == (if PageOutcome(pages, i).Err? then Ok([]) else PageOutcome(pages, i))
    ensures Collected(pages, n) == Collected(pages', n)
  {
    if n > 0 {
      FailedPageActsAsEmpty(pages, pages', n - 1);
      assert Collected(pages', n - 1) + [] == Collected(pages', n - 1);
    }
  }

  /** Short pages do not stop the loop: when every page succeeds with `size` games, `n` pages gather `n * size`. */
  lemma {:induction false} CollectedCount(pages: int -> Result<seq<Json>>, n: nat, size: nat)
    requires forall i :: 0 <= i < n ==> PageOutcome(pages, i).Ok? && |PageOutcome(pages, i).value| == size
    ensures |Collected(pages, n)| == n * size
  {
    if n > 0 {
      CollectedCount(pages, n - 1, size);
      PagesStep(n, size);
    }
  }
}
