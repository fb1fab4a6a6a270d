/** The RAWG pipeline: the encyclopedia fallback for missing descriptions, the
    flattening of one game into a CSV row, and the bounded page loop that
    writes the CSV once at the end. */
module Rawg {
  import opened Wrappers
  import opened Text
  import opened Json
  import opened Csv

  // ---------------------------------------------------------------------
  // Encyclopedia summary

  const Placeholder: string := "No summary available"

  /** `summary.split(".")[0] + "."`: the text before the first period, then a period. */
  function FirstSentence(summary: string): string
  {
    Split(summary, ".")[0] + "."
  }

  /** The first sentence ends with its only period, and the text before it is
      the summary's text up to its first period. */
  lemma FirstSentenceShape(summary: string)
    ensures var r := FirstSentence(summary);
      && |r| >= 1 && r[|r| - 1] == '.'
      && '.' !in r[..|r| - 1]
      && r[..|r| - 1] <= summary
      && (|r| - 1 < |summary| ==> summary[|r| - 1] == '.')
  {
    FirstPieceBeforeDot(summary);
  }

  /** The first piece of a split at `"."` has no period and stops at the first one. */
  lemma FirstPieceBeforeDot(s: string)
    ensures var i := FindSep(s, ".");
      '.' !in s[..i] && (i < |s| ==> s[i] == '.')
  {
    var i := FindSep(s, ".");
    forall j | 0 <= j < i ensures s[j] != '.' {
      assert !OccursAt(s, ".", j);
    }
    if i < |s| {
      assert OccursAt(s, ".", i);
      assert s[i..i + 1][0] == s[i];
    }
  }

  /** Taking the first sentence of a first sentence changes nothing. */
  lemma FirstSentenceIdempotent(summary: string)
    ensures FirstSentence(FirstSentence(summary)) == FirstSentence(summary)
  {
    var r := FirstSentence(summary);
    FirstSentenceShape(summary);
    FirstSentenceShape(r);
    FirstSentenceOfText(r[..|r| - 1], []);
    assert r == r[..|r| - 1] + "." + [];
  }

  /** A summary opening with a sentence `p` (no period inside) followed by more
      text gives `p` with its period, e.g. "Foo is a game. More text." gives "Foo is a game.". */
  lemma FirstSentenceOfText(p: string, t: string)
    requires '.' !in p
    ensures FirstSentence(p + "." + t) == p + "."
  {
    var s := p + "." + t;
    assert s[..|p|] == p;
    assert s[|p|..|p| + 1] == ".";
    FindSepIs(s, ".", |p|);
  }

  /** `get_wikipedia_summary` for a page lookup that gives the page's summary when the page exists. */
  function WikipediaSummary(page: Option<string>): (r: string)
    ensures r == Placeholder <==> page.None?
  {
    if page.Some? then
      var s := FirstSentence(page.value);
      FirstSentenceShape(page.value);
      assert s[|s| - 1] != Placeholder[|Placeholder| - 1];
      s
    else Placeholder
  }

  // ---------------------------------------------------------------------
  // Flattening one game

  const Keys: seq<string> := [
    "id", "name", "released", "genres", "platforms", "developers", "publishers",
    "background_image", "rating", "description"
  ]

  /** The description column when the game's own description is falsy: the
      summary of the encyclopedia page titled with the game's name. */
  function FallbackDescription(game: Json, wiki: Json -> Option<string>): Result<Json>
  {
    var name :- Subscript(game, "name");
    Ok(JStr(WikipediaSummary(wiki(name))))
  }

  /** A company column: `""` when the field is falsy, its joined names otherwise. */
  function CompanyNames(game: Json, field: string): Result<string>
  {
    if Truthy(Lookup(game, field, JNull)) then JoinedNames(Lookup(game, field, EmptyList), ["name"]) else Ok("")
  }

  /** The games whose row can be built without an exception. */
  predicate WellFormedGame(game: Json)
  {
    && game.JObj?
    && (Truthy(Lookup(game, "description", JNull)) || Subscript(game, "name").Ok?)
    && IsNameList(Lookup(game, "genres", EmptyList), ["name"])
    && IsNameList(Lookup(game, "platforms", EmptyList), ["platform", "name"])
    && (!Truthy(Lookup(game, "developers", JNull)) || IsNameList(Lookup(game, "developers", EmptyList), ["name"]))
    && (!Truthy(Lookup(game, "publishers", JNull)) || IsNameList(Lookup(game, "publishers", EmptyList), ["name"]))
  }

  /** The dict `parse_game_data` builds for one game, or `Err` where building it
      raises. `wiki(title)` is the encyclopedia page's summary when the page exists. */
  function RawgRecord(game: Json, wiki: Json -> Option<string>): (r: Result<Row>)
    ensures r.Ok? <==> WellFormedGame(game)
    ensures r.Ok? ==> HasHeader(r.value, Keys)
  {
    if !game.JObj? then Err
    else
      var description := Lookup(game, "description", JNull);
      var summary :- if Truthy(description) then Ok(description) else FallbackDescription(game, wiki);
      var genres :- JoinedNames(Lookup(game, "genres", EmptyList), ["name"]);
      var platforms :- JoinedNames(Lookup(game, "platforms", EmptyList), ["platform", "name"]);
      var developers :- CompanyNames(game, "developers");
      var publishers :- CompanyNames(game, "publishers");
      Ok([
        ("id", Lookup(game, "id", JNull)),
        ("name", Lookup(game, "name", JNull)),
        ("released", Lookup(game, "released", JNull)),
        ("genres", JStr(genres)),
        ("platforms", JStr(platforms)),
        ("developers", JStr(developers)),
        ("publishers", JStr(publishers)),
        ("background_image", Lookup(game, "background_image", JNull)),
        ("rating", Lookup(game, "rating", JNull)),
        ("description", summary)
      ])
  }

  /** A truthy description is kept verbatim; otherwise the description is the
      first sentence of the page titled with the game's name, or the placeholder
      when there is no such page. */
  lemma DescriptionFallback(game: Json, wiki: Json -> Option<string>)
    requires RawgRecord(game, wiki).Ok?
    ensures var own := Lookup(game, "description", JNull);
      var cell := RawgRecord(game, wiki).value[9].1;
      var page := wiki(Lookup(game, "name", JNull));
      && (Truthy(own) ==> cell == own)
      && (!Truthy(own) && page.None? ==> cell == JStr(Placeholder))
      && (!Truthy(own) && page.Some? ==> cell == JStr(FirstSentence(page.value)))
  {
  }

  /** `genres` and `platforms` hold their names (for platforms, each element's
      `platform.name`) in input order, and `""` when the field is absent or an empty list. */
  lemma ListColumnJoinsNames(game: Json, wiki: Json -> Option<string>)
    requires RawgRecord(game, wiki).Ok?
    ensures var row := RawgRecord(game, wiki).value;
      && ListedNames(row[3].1, Lookup(game, "genres", EmptyList), ["name"])
      && ListedNames(row[4].1, Lookup(game, "platforms", EmptyList), ["platform", "name"])
  {
    JoinedNamesSplitBack(Lookup(game, "genres", EmptyList), ["name"]);
    JoinedNamesSplitBack(Lookup(game, "platforms", EmptyList), ["platform", "name"]);
  }

  /** `developers` and `publishers` are `""` when the field is absent or falsy,
      and otherwise hold the elements' names in input order. */
  lemma CompanyColumnJoinsNames(game: Json, wiki: Json -> Option<string>)
    requires RawgRecord(game, wiki).Ok?
    ensures var row := RawgRecord(game, wiki).value;
      && CompanyCell(row[5].1, Lookup(game, "developers", JNull))
      && CompanyCell(row[6].1, Lookup(game, "publishers", JNull))
  {
    CompanyNamesSplitBack(game, "developers");
    CompanyNamesSplitBack(game, "publishers");
  }

  /** What a company cell holds for the game's field `own`. */
  ghost predicate CompanyCell(cell: Json, own: Json)
  {
    && (!Truthy(own) ==> cell == JStr(""))
    && (Truthy(own) ==> ListedNames(cell, own, ["name"]))
  }

  /** The company column built from `field` is `""` or the split-back names. */
  lemma CompanyNamesSplitBack(game: Json, field: string)
    requires CompanyNames(game, field).Ok?
    ensures CompanyCell(JStr(CompanyNames(game, field).value), Lookup(game, field, JNull))
  {
    var own := Lookup(game, field, JNull);
    if Truthy(own) {
      assert Lookup(game, field, EmptyList) == own;
      JoinedNamesSplitBack(own, ["name"]);
    }
  }

  /** Plain columns copy the game field named like the column (`None` when absent). */
  lemma ScalarColumns(game: Json, wiki: Json -> Option<string>)
    requires RawgRecord(game, wiki).Ok?
    ensures var row := RawgRecord(game, wiki).value;
      && row[0].1 == Lookup(game, "id", JNull)
      && row[1].1 == Lookup(game, "name", JNull)
      && row[2].1 == Lookup(game, "released", JNull)
      && row[7].1 == Lookup(game, "background_image", JNull)
      && row[8].1 == Lookup(game, "rating", JNull)
  {
  }

  // ---------------------------------------------------------------------
  // Parsing a page

  /** The rows for a page's games, in order, or `Err` when any of them raises. */
  function ParseAll(games: seq<Json>, wiki: Json -> Option<string>): (r: Result<seq<Row>>)
    ensures r.Ok? <==> forall i :: 0 <= i < |games| ==> WellFormedGame(games[i])
    ensures r.Ok? ==> |r.value| == |games|
    ensures r.Ok? ==> forall i :: 0 <= i < |games| ==> RawgRecord(games[i], wiki) == Ok(r.value[i])
  {
    if forall i :: 0 <= i < |games| ==> RawgRecord(games[i], wiki).Ok? then
      Ok(seq(|games|, i requires 0 <= i < |games| && RawgRecord(games[i], wiki).Ok? => RawgRecord(games[i], wiki).value))
    else Err
  }

  /** `parse_game_data`: one row per game, appended in input order; an exception aborts the call. */
  method ParseGameData(games: seq<Json>, wiki: Json -> Option<string>) returns (r: Result<seq<Row>>)
    ensures r == ParseAll(games, wiki)
  {
    var parsed: seq<Row> := [];
    for i := 0 to |games|
      invariant |parsed| == i
      invariant forall j :: 0 <= j < i ==> RawgRecord(games[j], wiki) == Ok(parsed[j])
    {
      var row := RawgRecord(games[i], wiki);
      if row.Err? {
        assert !WellFormedGame(games[i]);
        return Err;
      }
      parsed := parsed + [row.value];
    }
    assert parsed == ParseAll(games, wiki).value;
    r := Ok(parsed);
  }

  // ---------------------------------------------------------------------
  // The page loop

  const MaxPages: nat := 10

  /** The provider's answer to one page request: a status and, for status 200,
      the `results` list of the body; `Raised` when the request raised, or when a
      200 body was not JSON holding `results`. */
  datatype RawgReply = Reply(status: int, results: seq<Json>) | Raised

  /** What one page adds: its parsed games on status 200, nothing on any other
      status, and `Err` when the request or the parsing raised. */
  function PageRows(reply: RawgReply, wiki: Json -> Option<string>): Result<seq<Row>>
  {
    match reply
    case Raised => Err
    case Reply(status, results) => if status == 200 then ParseAll(results, wiki) else Ok([])
  }

  /** The rows gathered by pages 1..n, or `Err` once any of them raised. */
  function Gathered(replies: int -> RawgReply, wiki: Json -> Option<string>, n: nat): Result<seq<Row>>
  {
    if n == 0 then Ok([])
    else
      var before :- Gathered(replies, wiki, n - 1);
      var rows :- PageRows(replies(n), wiki);
      Ok(before + rows)
  }

  /** `save_to_csv(data, filename)`: the header, then one line per row. */
  function RawgCsv(rows: seq<Row>): (f: CsvFile)
    ensures f.header == Keys && |f.lines| == |rows|
    ensures forall i :: 0 <= i < |rows| && HasHeader(rows[i], Keys) ==> |f.lines[i]| == |Keys|
    ensures forall i, j :: 0 <= i < |rows| && HasHeader(rows[i], Keys) && 0 <= j < |Keys| ==>
      f.lines[i][j] == rows[i][j].1
  {
    var lines := seq(|rows|, i requires 0 <= i < |rows| => Line(rows[i]));
    forall i, j | 0 <= i < |rows| && HasHeader(rows[i], Keys) && 0 <= j < |Keys|
      ensures |lines[i]| == |Keys| && lines[i][j] == rows[i][j].1
    {
      assert lines[i] == Line(rows[i]);
      LineUnderHeader(rows[i], Keys, j);
    }
    CsvFile(Keys, lines)
  }



  /** `fetch_rawg_games`. `replies(page)` is the answer to the request for that
      page. Returns the pages requested and the CSV written at the end, or
      `Err` when an exception ended the run before anything was written. */
  method FetchRawgGames(replies: int -> RawgReply, wiki: Json -> Option<string>)
    returns (requested: seq<int>, saved: Result<CsvFile>)
    ensures 1 <= |requested| <= MaxPages
    ensures forall i :: 0 <= i < |requested| ==> requested[i] == i + 1
    ensures saved.Ok? <==> Gathered(replies, wiki, MaxPages).Ok?
    ensures saved.Ok? ==> |requested| == MaxPages && saved.value == RawgCsv(Gathered(replies, wiki, MaxPages).value)
    ensures saved.Err? ==> Gathered(replies, wiki, |requested| - 1).Ok? && Gathered(replies, wiki, |requested|).Err?
  {
    var page := 1;
    var allGames: seq<Row> := [];
    requested := [];
    while page <= MaxPages
      invariant 1 <= page <= MaxPages + 1
      invariant |requested| == page - 1
      invariant forall i :: 0 <= i < |requested| ==> requested[i] == i + 1
      invariant Gathered(replies, wiki, page - 1) == Ok(allGames)
    {
      requested := requested + [page];
      var rows: Result<seq<Row>>;
      match replies(page) {
        case Raised =>
          rows := Err;
        case Reply(status, results) =>
          if status == 200 {
            rows := ParseGameData(results, wiki);
          } else {
            rows := Ok([]);
          }
      }
      if rows.Err? {
        assert Gathered(replies, wiki, page).Err?;
        GatheredErrSticks(replies, wiki, page, MaxPages);
        return requested, Err;
      }
      assert Gathered(replies, wiki, page) == Ok(allGames + rows.value);
      allGames := allGames + rows.value;
      page := page + 1;
    }
    saved := Ok(RawgCsv(allGames));
  }

  /** Once a page has raised, the run's outcome stays `Err`. */
  lemma {:induction false} GatheredErrSticks(replies: int -> RawgReply, wiki: Json -> Option<string>, m: nat, n: nat)
    requires m <= n && Gathered(replies, wiki, m).Err?
    ensures Gathered(replies, wiki, n).Err?
    decreases n
  {
    if m < n {
      GatheredErrSticks(replies, wiki, m, n - 1);
    }
  }

  /** A page answered with a status other than 200 is skipped, not retried: it
      gathers exactly what an empty page of results would. */
  lemma {:induction false} Non200ActsAsEmpty(replies: int -> RawgReply, replies': int -> RawgReply, wiki: Json -> Option<string>, n: nat)
    requires forall k :: 1 <= k <= n ==>
      replies'(k) == (if replies(k).Reply? && replies(k).status != 200 then Reply(200, []) else replies(k))
    ensures Gathered(replies, wiki, n) == Gathered(replies', wiki, n)
  {
    if n > 0 {
      Non200ActsAsEmpty(replies, replies', wiki, n - 1);
    }
  }

  /** A page answered 200 whose games are all well-formed adds one row per game. */
  lemma PageRowsCount(reply: RawgReply, wiki: Json -> Option<string>)
    requires reply.Reply? && reply.status == 200
    requires forall i :: 0 <= i < |reply.results| ==> WellFormedGame(reply.results[i])
    ensures PageRows(reply, wiki).Ok? && |PageRows(reply, wiki).value| == |reply.results|
  {
    var r := ParseAll(reply.results, wiki);
    assert r.Ok? && |r.value| == |reply.results|;
  }

  /** When every page answers 200 with `size` well-formed games, short pages do
      not stop the run: pages 1..n gather `n * size` rows. */
  lemma {:induction false} GatheredLength(replies: int -> RawgReply, wiki: Json -> Option<string>, n: nat, size: nat)
    requires forall k :: 1 <= k <= n ==>
      && replies(k).Reply? && replies(k).status == 200 && |replies(k).results| == size
      && forall i :: 0 <= i < size ==> WellFormedGame(replies(k).results[i])
    ensures Gathered(replies, wiki, n).Ok?
    ensures |Gathered(replies, wiki, n).value| == n * size
  {
    if n > 0 {
      GatheredLength(replies, wiki, n - 1, size);
      PageRowsCount(replies(n), wiki);
      var before := Gathered(replies, wiki, n - 1).value;
      var rows := PageRows(replies(n), wiki).value;
      assert Gathered(replies, wiki, n) == Ok(before + rows);
      assert |before + rows| == (n - 1) * size + size;
      PagesStep(n, size);
    }
  }

  /** End to end: in that case the CSV gets one line per game, `n * size` in all. */
  lemma GatheredCount(replies: int -> RawgReply, wiki: Json -> Option<string>, n: nat, size: nat)
    requires forall k :: 1 <= k <= n ==>
      && replies(k).Reply? && replies(k).status == 200 && |replies(k).results| == size
      && forall i :: 0 <= i < size ==> WellFormedGame(replies(k).results[i])
    ensures Gathered(replies, wiki, n).Ok?
    ensures |RawgCsv(Gathered(replies, wiki, n).value).lines| == n * size
  {
    GatheredLength(replies, wiki, n, size);
  }
}
