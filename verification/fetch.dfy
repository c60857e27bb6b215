/** The decision flow of `fetchDailyMatches` (services/geminiService.ts):
    the browser cache, then the `matches` table when the store is
    configured, then a fresh scrape; the chosen list is sorted, a fresh
    scrape is saved back, and the category filter is applied last. The
    cache entry, the query's answer, the scrape and the save's outcome are
    inputs. */
module Fetch {
  import opened Common
  import opened Types
  import opened Supabase
  import opened MatchTime
  import opened Scrape

  /** The browser cache entry for the category: its date and, when it holds an array, the list. */
  datatype LocalEntry = LocalEntry(date: string, data: Option<seq<Match>>)

  /** The answer of the `matches` query: rows (already mapped to fixtures),
      an error object, or a throw. */
  datatype MatchQuery = Rows(rows: seq<Match>) | QueryError(message: string) | QueryThrew

  /** Where the listing came from. */
  datatype Origin = FromLocal | FromStore | FromScrape

  datatype FetchRun = FetchRun(circuit: Circuit, matches: seq<Match>, origin: Origin)

  /** A cache entry is used when it is today's and holds a non-empty array. */
  predicate LocalUsable(local: Option<LocalEntry>, today: string) {
    local.Some? && local.value.date == today && local.value.data.Some? && |local.value.data.value| > 0
  }

  /** The query returned at least one row. */
  predicate StoreHit(q: MatchQuery) {
    q.Rows? && |q.rows| > 0
  }

  /** The effect of the query's answer on the circuit. */
  function QueryCircuit(c: Circuit, q: MatchQuery): (r: Circuit)
    ensures c.offline ==> r == c
    ensures r.offline <==> c.offline || q.QueryThrew? || (q.QueryError? && IsNetworkMessage(q.message))
  {
    match q
    case Rows(_) => c
    case QueryError(message) => AfterCall(c, Failed(message))
    case QueryThrew => MarkOffline(c)
  }

  /** `fetchDailyMatches(category, force)` with "today" (ISO date) injected. */
  function FetchDaily(c: Circuit, category: string, force: bool, today: string, clientExists: bool,
                      local: Option<LocalEntry>, query: MatchQuery, scraped: seq<Match>, save: CallOutcome): FetchRun
  {
    var useLocal := !force && LocalUsable(local, today);
    var asked := !force && !useLocal && IsConfigured(c, clientExists);
    var c1 := if asked then QueryCircuit(c, query) else c;
    var useStore := asked && query.Rows? && |query.rows| > 0;
    var chosen := if useLocal then local.value.data.value else if useStore then query.rows else scraped;
    var origin := if useLocal then FromLocal else if useStore then FromStore else FromScrape;
    var sorted := if |chosen| > 0 then SortByTime(chosen) else chosen;
    var c2 := if |chosen| > 0 && origin == FromScrape && IsConfigured(c1, clientExists) then AfterCall(c1, save) else c1;
    FetchRun(c2, FilterMatches(sorted, category), origin)
  }

  /** The list `FetchDaily` takes the listing from. */
  function Chosen(c: Circuit, force: bool, today: string, clientExists: bool,
                  local: Option<LocalEntry>, query: MatchQuery, scraped: seq<Match>): (r: seq<Match>)
    ensures !force && LocalUsable(local, today) ==> r == local.value.data.value
    ensures force ==> r == scraped
    ensures (!force && !LocalUsable(local, today) && IsConfigured(c, clientExists) && StoreHit(query))
            ==> r == query.rows
    ensures (!force && !LocalUsable(local, today) && IsConfigured(c, clientExists) && !StoreHit(query))
            ==> r == scraped
    ensures !LocalUsable(local, today) && !IsConfigured(c, clientExists) ==> r == scraped
  {
    var useLocal := !force && LocalUsable(local, today);
    var asked := !force && !useLocal && IsConfigured(c, clientExists);
    if useLocal then local.value.data.value
    else if asked && query.Rows? && |query.rows| > 0 then query.rows
    else scraped
  }

  /** The listing is the chosen list, sorted, then filtered by category. */
  lemma FetchIsSortedChoice(c: Circuit, category: string, force: bool, today: string, clientExists: bool,
                            local: Option<LocalEntry>, query: MatchQuery, scraped: seq<Match>, save: CallOutcome)
    ensures FetchDaily(c, category, force, today, clientExists, local, query, scraped, save).matches
            == FilterMatches(SortByTime(Chosen(c, force, today, clientExists, local, query, scraped)), category)
  {
    var chosen := Chosen(c, force, today, clientExists, local, query, scraped);
    if |chosen| == 0 {
      assert SortByTime(chosen) == [];
    }
  }

  /** The circuit only opens, and only because the query or the save
      reported an unreachable server. */
  lemma FetchCircuitMonotone(c: Circuit, category: string, force: bool, today: string, clientExists: bool,
                             local: Option<LocalEntry>, query: MatchQuery, scraped: seq<Match>, save: CallOutcome)
    ensures var r := FetchDaily(c, category, force, today, clientExists, local, query, scraped, save);
            && (c.offline ==> r.circuit == c)
            && (r.circuit.offline ==> c.offline || query.QueryThrew? || (query.QueryError? && IsNetworkMessage(query.message)) || Trips(save))
  {
  }

  /** Today's cached list is served without touching the store or the circuit. */
  lemma LocalFirst(c: Circuit, category: string, today: string, clientExists: bool,
                   local: Option<LocalEntry>, query: MatchQuery, scraped: seq<Match>, save: CallOutcome)
    requires LocalUsable(local, today)
    ensures var r := FetchDaily(c, category, false, today, clientExists, local, query, scraped, save);
            r == FetchRun(c, FilterMatches(SortByTime(local.value.data.value), category), FromLocal)
  {
  }

  /** A forced refresh always scrapes; the save applies only to a non-empty scrape. */
  lemma ForcedScrapes(c: Circuit, category: string, today: string, clientExists: bool,
                      local: Option<LocalEntry>, query: MatchQuery, scraped: seq<Match>, save: CallOutcome)
    ensures var r := FetchDaily(c, category, true, today, clientExists, local, query, scraped, save);
            && r.origin == FromScrape
            && r.matches == FilterMatches(SortByTime(scraped), category)
            && r.circuit == (if |scraped| > 0 && IsConfigured(c, clientExists) then AfterCall(c, save) else c)
  {
    FetchIsSortedChoice(c, category, true, today, clientExists, local, query, scraped, save);
  }

  /** Without a configured store neither the query nor the save plays any part. */
  lemma UnconfiguredIgnoresStore(c: Circuit, category: string, force: bool, today: string, clientExists: bool,
                                 local: Option<LocalEntry>, query1: MatchQuery, query2: MatchQuery,
                                 scraped: seq<Match>, save1: CallOutcome, save2: CallOutcome)
    requires !IsConfigured(c, clientExists)
    ensures FetchDaily(c, category, force, today, clientExists, local, query1, scraped, save1)
            == FetchDaily(c, category, force, today, clientExists, local, query2, scraped, save2)
  {
  }

  /** For the pass-through categories the listing is a rearrangement of the chosen list. */
  lemma FetchPermutes(c: Circuit, category: string, force: bool, today: string, clientExists: bool,
                      local: Option<LocalEntry>, query: MatchQuery, scraped: seq<Match>, save: CallOutcome)
    requires PassesAll(category)
    ensures multiset(FetchDaily(c, category, force, today, clientExists, local, query, scraped, save).matches)
            == multiset(Chosen(c, force, today, clientExists, local, query, scraped))
  {
    FetchIsSortedChoice(c, category, force, today, clientExists, local, query, scraped, save);
  }

  /** Filtering keeps a sorted list sorted. */
  lemma {:induction false} KeepSortedBy(s: seq<Match>, f: Match -> bool, le: (Match, Match) -> bool)
    requires SortedBy(s, le)
    ensures SortedBy(Keep(s, f), le)
    decreases |s|
  {
    if |s| > 0 {
      TailSortedBy(s, le);
      KeepSortedBy(s[1..], f, le);
      if f(s[0]) {
        var rest := Keep(s[1..], f);
        forall k | 0 <= k < |rest|
          ensures le(s[0], rest[k])
        {
          var j :| 0 <= j < |s[1..]| && s[1..][j] == rest[k];
          assert s[j + 1] == rest[k];
        }
        PrependBefore(s[0], rest, le);
      }
    }
  }

  /** An element that may precede every element of a sorted list may be put
      in front of it. */
  lemma PrependBefore(x: Match, s: seq<Match>, le: (Match, Match) -> bool)
    requires SortedBy(s, le) && forall k :: 0 <= k < |s| ==> le(x, s[k])
    ensures SortedBy([x] + s, le)
  {
    var r := [x] + s;
    forall i, j | 0 <= i < j < |r|
      ensures le(r[i], r[j])
    {
      assert r[j] == s[j - 1];
      if i > 0 {
        assert r[i] == s[i - 1];
      }
    }
  }

  /** With numeric hours, being sorted by the comparator is being in key order. */
  lemma ByTimeIsKeyOrder(s: seq<Match>)
    requires HoursNumeric(s) && SortedBy(s, LeByTime)
    ensures SortedByKey(s)
  {
    forall i, j | 0 <= i < j < |s|
      ensures KeyLe(s[i], s[j])
    {
      OrderIsKeyOrder(s[i], s[j]);
    }
  }

  /** When every candidate fixture has a numeric hour, the listing is in key
      order: live fixtures first, then by adjusted hour, then by time text. */
  lemma FetchSorted(c: Circuit, category: string, force: bool, today: string, clientExists: bool,
                    local: Option<LocalEntry>, query: MatchQuery, scraped: seq<Match>, save: CallOutcome)
    requires HoursNumeric(Chosen(c, force, today, clientExists, local, query, scraped))
    ensures var r := FetchDaily(c, category, force, today, clientExists, local, query, scraped, save);
            HoursNumeric(r.matches) && SortedByKey(r.matches)
  {
    FetchIsSortedChoice(c, category, force, today, clientExists, local, query, scraped, save);
    SortedListing(Chosen(c, force, today, clientExists, local, query, scraped), category);
  }

  /** Sorting then filtering by category leaves a list in key order. */
  lemma SortedListing(chosen: seq<Match>, category: string)
    requires HoursNumeric(chosen)
    ensures HoursNumeric(FilterMatches(SortByTime(chosen), category))
    ensures SortedByKey(FilterMatches(SortByTime(chosen), category))
  {
    var sorted := SortByTime(chosen);
    ByTimeIsPreorder(chosen);
    SortBySorted(chosen, LeByTime);
    SortByTimeSorted(chosen);
    var r := FilterMatches(sorted, category);
    if !PassesAll(category) {
      KeepSortedBy(sorted, m => InCategory(category, m), LeByTime);
      KeepHoursNumeric(sorted, m => InCategory(category, m));
    }
    ByTimeIsKeyOrder(r);
  }

  /** Filtering keeps every hour numeric. */
  lemma KeepHoursNumeric(s: seq<Match>, f: Match -> bool)
    requires HoursNumeric(s)
    ensures HoursNumeric(Keep(s, f))
  {
    var r := Keep(s, f);
    forall i | 0 <= i < |r|
      ensures AdjustedHour(r[i].time).Fin?
    {
      var k :| 0 <= k < |s| && s[k] == r[i];
    }
  }
}
