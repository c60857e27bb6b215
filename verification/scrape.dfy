/** The normalisation of scraped fixtures (`scrapeMatchesWithGemini`,
    services/geminiService.ts) and the category filter `filterMatches`.
    The model's reply is parsed by the extraction step; each row of the
    resulting array becomes a `Match`. */
module Scrape {
  import opened Common
  import opened JsText
  import opened Types
  import opened MatchTime
  import opened Extraction

  /** One element of the scraped JSON array, with the fields the mapping reads. */
  datatype RawRow = RawRow(
    homeTeam: string,
    awayTeam: string,
    league: Option<string>,
    time: string,
    date: Option<string>,
    sport: Option<string>,
    quickOdds: JsVal)

  /** What `JSON.parse` produced: an array of rows, or some other value. */
  datatype Reply = RowArray(rows: seq<RawRow>) | NotArray

  /** `${m.date}`: a missing date prints as "undefined". */
  function DateText(date: Option<string>): string {
    if date.Some? then date.value else "undefined"
  }

  predicate NoUpper(s: string) {
    forall i :: 0 <= i < |s| ==> !IsUpperAscii(s[i])
  }

  /** The fixture id: home, away and the raw date joined by dashes, every run
      of white space turned into one dash, then lower-cased. */
  function MatchId(row: RawRow): (id: string)
    ensures NoSpace(id) && NoUpper(id)
    ensures |id| <= |row.homeTeam| + |row.awayTeam| + |DateText(row.date)| + 2
  {
    ToLower(CollapseSpaces(row.homeTeam + "-" + row.awayTeam + "-" + DateText(row.date)))
  }

  /** The league names a basketball competition, or the row says so. */
  predicate IsBasketballRow(row: RawRow) {
    || (row.league.Some? && row.league.value != ""
        && (Contains(row.league.value, "NBA") || Contains(row.league.value, "Basket")))
    || row.sport == Some("Basketball")
  }

  /** `Number(m.quickOdds) || 0`. */
  function QuickOdds(row: RawRow): real {
    ToNumber(row.quickOdds).Or(0.0)
  }

  /** `Number(m.quickOdds) > 0 && Number(m.quickOdds) < 2.5`. */
  predicate IsTrendingRow(row: RawRow) {
    Less(Fin(0.0), ToNumber(row.quickOdds)) && Less(ToNumber(row.quickOdds), Fin(2.5))
  }

  /** The `Match` built from one row, with "today" (dd/mm) and the minute of
      the day injected. */
  function Normalize(row: RawRow, today: string, now: int): (m: Match)
    ensures m.homeTeam == row.homeTeam && m.awayTeam == row.awayTeam
    ensures m.league == row.league && m.time == row.time
    ensures NoSpace(m.id) && NoUpper(m.id)
    ensures m.date.Some? && (row.date.Some? && row.date.value != "" ==> m.date == row.date)
    ensures m.sport == Basketball <==> IsBasketballRow(row)
    ensures m.sport == Football || m.sport == Basketball
    ensures m.status == Some(Live) || m.status == Some(Scheduled)
    ensures m.status == Some(Live) ==> row.date == Some(today) && m.date == row.date
    ensures m.quickPrediction == Some("Analyse...") && m.quickConfidence == Some(0.0)
    ensures m.quickOdds.Some? && m.isTrending.Some?
    ensures m.isTrending == Some(true) <==> 0.0 < m.quickOdds.value < 2.5
  {
    Match(
      id := MatchId(row),
      homeTeam := row.homeTeam,
      awayTeam := row.awayTeam,
      league := row.league,
      time := row.time,
      date := Some(if row.date.Some? && row.date.value != "" then row.date.value else today),
      sport := if IsBasketballRow(row) then Basketball else Football,
      status := Some(if IsLive(row.date, Some(row.time), today, now) then Live else Scheduled),
      isTrending := Some(IsTrendingRow(row)),
      reliability := None,
      quickPrediction := Some("Analyse..."),
      quickConfidence := Some(0.0),
      quickOdds := Some(QuickOdds(row)))
  }

  /** `response.text || "[]"`. */
  function ReplyText(text: Option<string>): string {
    if text.Some? && text.value != "" then text.value else "[]"
  }

  /** The scraper's result for a reply: the mapped rows when the parsed
      value is an array, otherwise nothing. A parse failure reads as `[]`. */
  function ScrapedMatches(text: Option<string>, parse: string -> Option<Reply>, today: string, now: int): (ms: seq<Match>)
    ensures var parsed := CleanAndParse(ReplyText(text), parse, RowArray([]));
            && |ms| == (if parsed.RowArray? then |parsed.rows| else 0)
            && forall i :: 0 <= i < |ms| ==> ms[i] == Normalize(parsed.rows[i], today, now)
  {
    var parsed := CleanAndParse(ReplyText(text), parse, RowArray([]));
    if parsed.RowArray? then seq(|parsed.rows|, i requires 0 <= i < |parsed.rows| => Normalize(parsed.rows[i], today, now))
    else []
  }

  /** An empty or missing reply yields no fixture, provided the parser reads
      `[]` as the empty array (or rejects it). */
  lemma EmptyReplyNoMatches(parse: string -> Option<Reply>, today: string, now: int)
    requires parse("[]") == Some(RowArray([])) || parse("[]").None?
    ensures ScrapedMatches(None, parse, today, now) == []
    ensures ScrapedMatches(Some(""), parse, today, now) == []
  {
    StripClean("[]");
    JsonSpanOfDocument("[]");
  }

  // ---------------------------------------------------------------------------
  // Ids

  lemma ToLowerKeeps(s: string)
    requires NoUpper(s)
    ensures ToLower(s) == s
  {
  }

  /** Single-word, lower-case team names and date give the plain dashed id. */
  lemma IdOfCleanParts(home: string, away: string, date: string, row: RawRow)
    requires NoSpace(home) && NoSpace(away) && NoSpace(date)
    requires NoUpper(home) && NoUpper(away) && NoUpper(date)
    requires row.homeTeam == home && row.awayTeam == away && row.date == Some(date)
    ensures MatchId(row) == home + "-" + away + "-" + date
  {
    var s := home + "-" + away + "-" + date;
    assert NoSpace(s) by {
      forall i | 0 <= i < |s|
        ensures !IsSpace(s[i])
      {
        if i < |home| {
          assert s[i] == home[i];
        } else if i == |home| {
        } else if i < |home| + 1 + |away| {
          assert s[i] == away[i - |home| - 1];
        } else if i == |home| + 1 + |away| {
        } else {
          assert s[i] == date[i - |home| - |away| - 2];
        }
      }
    }
    assert NoUpper(s) by {
      forall i | 0 <= i < |s|
        ensures !IsUpperAscii(s[i])
      {
        if i < |home| {
          assert s[i] == home[i];
        } else if i == |home| {
        } else if i < |home| + 1 + |away| {
          assert s[i] == away[i - |home| - 1];
        } else if i == |home| + 1 + |away| {
        } else {
          assert s[i] == date[i - |home| - |away| - 2];
        }
      }
    }
    ToLowerKeeps(s);
  }

  /** One space between two words becomes one dash. */
  lemma {:induction false} CollapseOneSpace(a: string, b: string)
    requires NoSpace(a) && NoSpace(b)
    ensures CollapseSpaces(a + " " + b) == a + "-" + b
    decreases |a|
  {
    var s := a + " " + b;
    if |a| == 0 {
      assert s == " " + b;
      assert s[1..] == b;
      assert TrimStart(s) == TrimStart(b);
      assert TrimStart(b) == b;
      assert "" + "-" + b == "-" + b;
    } else {
      assert s[0] == a[0];
      assert s[1..] == a[1..] + " " + b;
      CollapseOneSpace(a[1..], b);
      assert a == [a[0]] + a[1..];
    }
  }

  /** A run of white space after a word is one dash, however long the run. */
  lemma {:induction false} CollapseRun(a: string, run: string, b: string)
    requires NoSpace(a) && NoSpace(b) && |run| > 0
    requires forall i :: 0 <= i < |run| ==> IsSpace(run[i])
    ensures CollapseSpaces(a + run + b) == a + "-" + b
    decreases |a|
  {
    var s := a + run + b;
    if |a| == 0 {
      assert s == run + b;
      TrimStartRun(run, b);
    } else {
      assert s[0] == a[0];
      assert s[1..] == a[1..] + run + b;
      CollapseRun(a[1..], run, b);
      assert a == [a[0]] + a[1..];
    }
  }

  lemma {:induction false} TrimStartRun(run: string, b: string)
    requires NoSpace(b)
    requires forall i :: 0 <= i < |run| ==> IsSpace(run[i])
    ensures TrimStart(run + b) == b
    decreases |run|
  {
    if |run| > 0 {
      assert (run + b)[1..] == run[1..] + b;
      TrimStartRun(run[1..], b);
    } else {
      assert run + b == b;
    }
  }

  // ---------------------------------------------------------------------------
  // Row fields

  /** The listed odds fall back to 0, and a row trends exactly when its listed odds lie in (0, 2.5). */
  lemma TrendingIffListedOdds(row: RawRow, today: string, now: int)
    ensures var m := Normalize(row, today, now);
            m.isTrending == Some(true) <==> 0.0 < QuickOdds(row) < 2.5
    ensures !ToNumber(row.quickOdds).Truthy() ==> Normalize(row, today, now).isTrending == Some(false)
  {
  }

  /** A row whose date is missing is never listed live, whatever the hour. */
  lemma UndatedRowScheduled(row: RawRow, today: string, now: int)
    requires row.date.None?
    ensures Normalize(row, today, now).status == Some(Scheduled)
    ensures Normalize(row, today, now).date == Some(today)
    ensures MatchId(row) == ToLower(CollapseSpaces(row.homeTeam + "-" + row.awayTeam + "-undefined"))
  {
    assert row.homeTeam + "-" + row.awayTeam + "-" + "undefined" == row.homeTeam + "-" + row.awayTeam + "-undefined";
  }

  // ---------------------------------------------------------------------------
  // filterMatches

  /** Categories for which `filterMatches` keeps the whole list. */
  predicate PassesAll(category: string) {
    category == "All" || category == "Trending" || category == "Safe" || category == "HighOdds" || category == "Value"
  }

  predicate InCategory(category: string, m: Match) {
    m.sport.Name() == category
  }

  /** `filterMatches`. */
  function FilterMatches(ms: seq<Match>, category: string): (r: seq<Match>)
    ensures PassesAll(category) ==> r == ms
    ensures !PassesAll(category) ==> forall m :: m in r <==> m in ms && m.sport.Name() == category
  {
    if PassesAll(category) then ms else Keep(ms, m => InCategory(category, m))
  }

  /** Filtering twice is filtering once. */
  lemma FilterMatchesIdempotent(ms: seq<Match>, category: string)
    ensures FilterMatches(FilterMatches(ms, category), category) == FilterMatches(ms, category)
  {
    if !PassesAll(category) {
      KeepIdempotent(ms, m => InCategory(category, m));
    }
  }

  /** Filtering is applied element by element, so the kept fixtures stay in
      their original order. */
  lemma FilterMatchesAppend(a: seq<Match>, b: seq<Match>, category: string)
    ensures FilterMatches(a + b, category) == FilterMatches(a, category) + FilterMatches(b, category)
  {
    if !PassesAll(category) {
      KeepAppend(a, b, m => InCategory(category, m));
    }
  }

  /** No sport is named "NBA", so that category, which the scraper accepts,
      always comes back empty. */
  lemma NbaCategoryEmpty(ms: seq<Match>)
    ensures FilterMatches(ms, "NBA") == []
  {
    KeepNone(ms, m => InCategory("NBA", m));
  }

  /** The scraper only produces football and basketball fixtures, so the
      tennis category of a fresh scrape is empty. */
  lemma ScrapeHasNoTennis(text: Option<string>, parse: string -> Option<Reply>, today: string, now: int)
    ensures FilterMatches(ScrapedMatches(text, parse, today, now), "Tennis") == []
  {
    var ms := ScrapedMatches(text, parse, today, now);
    KeepNone(ms, m => InCategory("Tennis", m));
  }
}
