/**
 * The fetching stage: `GoogleTrendsScraper.fetch_trends` asks the trends
 * provider for each keyword in turn, retrying a keyword whose request fails
 * with a `RequestException`, and accumulates the non-empty answers, each row
 * tagged with its keyword.
 *
 * The provider is an oracle: `provider(request, attempt)` is what the
 * `attempt`-th try (counted from 0) for one keyword gives back. The sleeps and
 * the requests, the stage's side effects, are returned as a trace of events.
 */
module Scraper {

  /** One row of `interest_over_time()` for one keyword, before `isPartial` is dropped. */
  datatype ProviderRow = ProviderRow(date: int, interest: int, isPartial: bool)

  /** One row of the accumulated table: the provider's date and interest, and the keyword column. */
  datatype Row = Row(date: int, interest: int, keyword: string)

  /** The arguments of one `build_payload` call: always a single keyword. */
  datatype Request = Request(keywords: seq<string>, category: int, timeframe: string, geo: string)

  /** What one attempt gives: a `RequestException`, any other exception, or a frame (empty or not). */
  datatype Response = RequestFailed | OtherError | Data(rows: seq<ProviderRow>)

  /** The provider seen from the scraper: the response to the `attempt`-th try of a request. */
  type Provider = (Request, nat) -> Response

  /** A side effect of fetching: one request to the provider, or one `time.sleep(delay)`. */
  datatype Event = Requested(keyword: string, attempt: nat) | Slept(seconds: real)

  /** The configuration that `__init__` stores; the provider client itself is the oracle. */
  datatype Settings = Settings(timeframe: string, geo: string, category: int, retries: int, delay: real)

  /**
   * A finished (part of a) fetch: the rows accumulated, the events it caused,
   * and whether an exception escaped at its end: one other than
   * `RequestException`, or the `ValueError` of a sleep with a negative `delay`.
   */
  datatype Run = Run(rows: seq<Row>, events: seq<Event>, aborted: bool)

  /** What `fetch_trends` ends with: the accumulated table, or an exception that escaped. */
  datatype FetchResult = Fetched(rows: seq<Row>) | Aborted

  // ---------------------------------------------------------------------------
  // The specification of one keyword and of the whole fetch
  // ---------------------------------------------------------------------------

  /** The single-keyword request that `build_payload([keyword], ...)` makes. */
  function RequestFor(settings: Settings, keyword: string): Request {
    Request([keyword], settings.category, settings.timeframe, settings.geo)
  }

  /** Drops `isPartial` and sets the `keyword` column of every row. */
  function TagRows(rows: seq<ProviderRow>, keyword: string): (r: seq<Row>)
    ensures |r| == |rows|
    ensures forall k :: 0 <= k < |r| ==> r[k] == Row(rows[k].date, rows[k].interest, keyword)
  {
    if rows == [] then [] else [Row(rows[0].date, rows[0].interest, keyword)] + TagRows(rows[1..], keyword)
  }

  /**
   * The retries for one keyword from try `attempt` on: a `RequestException`
   * sleeps and tries again while tries are left, except that a negative
   * `delay` makes the sleep raise `ValueError`, which ends the fetch; any
   * other exception ends the fetch; a frame ends the retries, contributing its
   * rows (none if empty).
   */
  function RunKeyword(provider: Provider, settings: Settings, keyword: string, attempt: nat): Run
    decreases if attempt < settings.retries then settings.retries - attempt else 0
  {
    if attempt >= settings.retries then Run([], [], false)
    else
      var asked := Requested(keyword, attempt);
      match provider(RequestFor(settings, keyword), attempt)
      case RequestFailed =>
        if settings.delay < 0.0 then Run([], [asked], true)
        else
          var later := RunKeyword(provider, settings, keyword, attempt + 1);
          Run(later.rows, [asked, Slept(settings.delay)] + later.events, later.aborted)
      case OtherError => Run([], [asked], true)
      case Data(rows) => Run(TagRows(rows, keyword), [asked], false)
  }

  /** One run followed by another: rows and events concatenate, and the second decides the abort. */
  function Then(first: Run, second: Run): Run {
    Run(first.rows + second.rows, first.events + second.events, second.aborted)
  }

  /** The whole fetch: the keywords in their order, stopping at the first escaped exception. */
  function FetchAll(provider: Provider, settings: Settings, keywords: seq<string>): Run
  {
    if keywords == [] then Run([], [], false)
    else
      var first := RunKeyword(provider, settings, keywords[0], 0);
      if first.aborted then first
      else Then(first, FetchAll(provider, settings, keywords[1..]))
  }

  /** The events of `n` failed tries of one keyword: each request followed by a sleep. */
  function Failures(keyword: string, n: nat, delay: real): (r: seq<Event>)
    ensures |r| == 2 * n
    ensures forall k :: 0 <= k < n ==> r[2 * k] == Requested(keyword, k) && r[2 * k + 1] == Slept(delay)
  {
    if n == 0 then [] else Failures(keyword, n - 1, delay) + [Requested(keyword, n - 1), Slept(delay)]
  }

  /** `run` preceded by `n` failed tries. */
  function AfterFailures(keyword: string, n: nat, delay: real, run: Run): Run {
    Run(run.rows, Failures(keyword, n, delay) + run.events, run.aborted)
  }

  /** Number of events in a trace that satisfy `p`. */
  function Count(events: seq<Event>, p: Event -> bool): (n: nat)
    ensures n <= |events|
  {
    if events == [] then 0 else (if p(events[0]) then 1 else 0) + Count(events[1..], p)
  }

  /** A request to the provider. */
  predicate IsRequest(e: Event) { e.Requested? }

  /** A sleep between tries. */
  predicate IsSleep(e: Event) { e.Slept? }

  /** A request whose response was a `RequestException`. */
  predicate IsFailedRequest(provider: Provider, settings: Settings, e: Event) {
    e.Requested? && provider(RequestFor(settings, e.keyword), e.attempt) == RequestFailed
  }

  /** Counting distributes over concatenation. */
  lemma {:induction false} CountAppend(a: seq<Event>, b: seq<Event>, p: Event -> bool)
    ensures Count(a + b, p) == Count(a, p) + Count(b, p)
  {
    if a == [] {
      assert a + b == b;
    } else {
      assert (a + b)[0] == a[0] && (a + b)[1..] == a[1..] + b;
      CountAppend(a[1..], b, p);
    }
  }

  /** A failed try adds one request and one sleep in front of the rest of the retries. */
  lemma {:induction false} FailedTryStep(provider: Provider, settings: Settings, keyword: string, attempt: nat)
    requires attempt < settings.retries && settings.delay >= 0.0
    requires provider(RequestFor(settings, keyword), attempt) == RequestFailed
    ensures AfterFailures(keyword, attempt, settings.delay, RunKeyword(provider, settings, keyword, attempt))
         == AfterFailures(keyword, attempt + 1, settings.delay, RunKeyword(provider, settings, keyword, attempt + 1))
  {
    var later := RunKeyword(provider, settings, keyword, attempt + 1);
    var d := settings.delay;
    assert Failures(keyword, attempt + 1, d) == Failures(keyword, attempt, d) + [Requested(keyword, attempt), Slept(d)];
    assert Failures(keyword, attempt, d) + ([Requested(keyword, attempt), Slept(d)] + later.events)
        == Failures(keyword, attempt + 1, d) + later.events;
  }

  /** The first keyword of the rest is handled, then the keywords after it. */
  lemma {:induction false} FetchAllStep(provider: Provider, settings: Settings, keywords: seq<string>, i: nat, done: Run)
    requires i < |keywords| && !done.aborted
    requires !RunKeyword(provider, settings, keywords[i], 0).aborted
    ensures Then(done, FetchAll(provider, settings, keywords[i..]))
         == Then(Then(done, RunKeyword(provider, settings, keywords[i], 0)), FetchAll(provider, settings, keywords[i + 1..]))
  {
    assert keywords[i..][0] == keywords[i] && keywords[i..][1..] == keywords[i + 1..];
    var first := RunKeyword(provider, settings, keywords[i], 0);
    var rest := FetchAll(provider, settings, keywords[i + 1..]);
    assert done.rows + (first.rows + rest.rows) == (done.rows + first.rows) + rest.rows;
    assert done.events + (first.events + rest.events) == (done.events + first.events) + rest.events;
  }

  /** If the keyword at `i` lets an exception escape, the fetch ends there. */
  lemma {:induction false} FetchAllAbortStep(provider: Provider, settings: Settings, keywords: seq<string>, i: nat, done: Run)
    requires i < |keywords|
    requires RunKeyword(provider, settings, keywords[i], 0).aborted
    ensures Then(done, FetchAll(provider, settings, keywords[i..])) == Then(done, RunKeyword(provider, settings, keywords[i], 0))
  {
    assert keywords[i..][0] == keywords[i];
  }

  // ---------------------------------------------------------------------------
  // Properties of the fetch
  // ---------------------------------------------------------------------------

  /** `n` failed tries make `n` requests and `n` sleeps, a sleep after every failure including the last. */
  lemma {:induction false} FailuresCounts(keyword: string, n: nat, delay: real)
    ensures Count(Failures(keyword, n, delay), IsRequest) == n
    ensures Count(Failures(keyword, n, delay), IsSleep) == n
  {
    if n > 0 {
      FailuresCounts(keyword, n - 1, delay);
      var pair := [Requested(keyword, n - 1), Slept(delay)];
      CountAppend(Failures(keyword, n - 1, delay), pair, IsRequest);
      CountAppend(Failures(keyword, n - 1, delay), pair, IsSleep);
      assert pair[1..] == [Slept(delay)];
    }
  }

  /**
   * While every try fails, the run so far is `attempt` failures in front of
   * the rest; with a negative `delay` the first failure already ends the fetch.
   */
  lemma {:induction false} FailuresSoFar(provider: Provider, settings: Settings, keyword: string, attempt: nat)
    requires attempt <= settings.retries
    requires forall a: nat :: a < attempt ==> provider(RequestFor(settings, keyword), a) == RequestFailed
    ensures settings.delay >= 0.0 || attempt == 0 ==>
      RunKeyword(provider, settings, keyword, 0)
        == AfterFailures(keyword, attempt, settings.delay, RunKeyword(provider, settings, keyword, attempt))
    ensures settings.delay < 0.0 && attempt > 0 ==>
      RunKeyword(provider, settings, keyword, 0) == Run([], [Requested(keyword, 0)], true)
  {
    if settings.delay < 0.0 && attempt > 0 {
      assert provider(RequestFor(settings, keyword), 0) == RequestFailed;
    } else if attempt > 0 {
      FailuresSoFar(provider, settings, keyword, attempt - 1);
      FailedTryStep(provider, settings, keyword, attempt - 1);
    } else {
      assert Failures(keyword, 0, settings.delay) == [];
    }
  }

  /**
   * A keyword that fails `n` times and then gets a frame is requested exactly
   * `n + 1` times, sleeps `n` times, and contributes that frame's rows tagged
   * with the keyword (nothing when the frame is empty). With a negative
   * `delay` and `n > 0`, the first sleep raises and the fetch ends instead.
   */
  lemma {:induction false} FirstSuccess(provider: Provider, settings: Settings, keyword: string, n: nat, rows: seq<ProviderRow>)
    requires n < settings.retries
    requires forall a: nat :: a < n ==> provider(RequestFor(settings, keyword), a) == RequestFailed
    requires provider(RequestFor(settings, keyword), n) == Data(rows)
    ensures var run := RunKeyword(provider, settings, keyword, 0);
      if settings.delay >= 0.0 || n == 0 then
        && run == Run(TagRows(rows, keyword), Failures(keyword, n, settings.delay) + [Requested(keyword, n)], false)
        && Count(run.events, IsRequest) == n + 1
        && Count(run.events, IsSleep) == n
      else
        run == Run([], [Requested(keyword, 0)], true)
  {
    FailuresSoFar(provider, settings, keyword, n);
    FailuresCounts(keyword, n, settings.delay);
    CountAppend(Failures(keyword, n, settings.delay), [Requested(keyword, n)], IsRequest);
    CountAppend(Failures(keyword, n, settings.delay), [Requested(keyword, n)], IsSleep);
  }

  /**
   * A keyword whose every try fails is requested `retries` times, sleeps after
   * each failure (after the last one too), contributes no rows and does not
   * stop the fetch; with a negative `delay` the first sleep raises instead,
   * after one request.
   */
  lemma {:induction false} AllTriesFail(provider: Provider, settings: Settings, keyword: string)
    requires settings.retries >= 0
    requires forall a: nat :: a < settings.retries ==> provider(RequestFor(settings, keyword), a) == RequestFailed
    ensures var run := RunKeyword(provider, settings, keyword, 0);
      if settings.delay >= 0.0 || settings.retries == 0 then
        && run == Run([], Failures(keyword, settings.retries, settings.delay), false)
        && Count(run.events, IsRequest) == settings.retries
        && Count(run.events, IsSleep) == settings.retries
      else
        run == Run([], [Requested(keyword, 0)], true)
  {
    FailuresSoFar(provider, settings, keyword, settings.retries);
    FailuresCounts(keyword, settings.retries, settings.delay);
    assert Failures(keyword, settings.retries, settings.delay) + [] == Failures(keyword, settings.retries, settings.delay);
  }

  /**
   * One keyword is requested at most `retries` times (never when `retries` is
   * not positive), each request names that keyword with a try number below
   * `retries`, and every row it contributes carries that keyword.
   */
  lemma {:induction false} KeywordBounds(provider: Provider, settings: Settings, keyword: string, attempt: nat)
    ensures var run := RunKeyword(provider, settings, keyword, attempt);
      && Count(run.events, IsRequest) <= (if attempt < settings.retries then settings.retries - attempt else 0)
      && (forall e :: e in run.events && e.Requested? ==> e.keyword == keyword && attempt <= e.attempt < settings.retries)
      && (forall r :: r in run.rows ==> r.keyword == keyword)
    decreases if attempt < settings.retries then settings.retries - attempt else 0
  {
    var run := RunKeyword(provider, settings, keyword, attempt);
    if attempt < settings.retries {
      var asked := Requested(keyword, attempt);
      match provider(RequestFor(settings, keyword), attempt)
      case RequestFailed =>
        if settings.delay < 0.0 {
          assert run == Run([], [asked], true);
        } else {
          var later := RunKeyword(provider, settings, keyword, attempt + 1);
          assert run == Run(later.rows, [asked, Slept(settings.delay)] + later.events, later.aborted);
          KeywordBounds(provider, settings, keyword, attempt + 1);
          CountAppend([asked, Slept(settings.delay)], later.events, IsRequest);
          assert [asked, Slept(settings.delay)][1..] == [Slept(settings.delay)];
        }
      case OtherError =>
      case Data(rows) =>
        forall r | r in run.rows ensures r.keyword == keyword {
          var k :| 0 <= k < |run.rows| && run.rows[k] == r;
        }
    }
  }

  /**
   * Per keyword, the number of sleeps equals the number of requests that
   * raised `RequestException`; with a negative `delay` no sleep happens, and
   * a failed request is the last one and ends the fetch.
   */
  lemma {:induction false} KeywordSleepsMatchFailures(provider: Provider, settings: Settings, keyword: string, attempt: nat)
    ensures var run := RunKeyword(provider, settings, keyword, attempt);
      var failures := Count(run.events, e => IsFailedRequest(provider, settings, e));
      && (settings.delay >= 0.0 ==> Count(run.events, IsSleep) == failures)
      && (settings.delay < 0.0 ==> Count(run.events, IsSleep) == 0 && failures <= 1 && (failures == 1 ==> run.aborted))
    decreases if attempt < settings.retries then settings.retries - attempt else 0
  {
    var failed := e => IsFailedRequest(provider, settings, e);
    if attempt < settings.retries {
      var asked := Requested(keyword, attempt);
      match provider(RequestFor(settings, keyword), attempt)
      case RequestFailed =>
        if settings.delay < 0.0 {
          assert failed(asked) && !IsSleep(asked);
          return;
        }
        var later := RunKeyword(provider, settings, keyword, attempt + 1);
        KeywordSleepsMatchFailures(provider, settings, keyword, attempt + 1);
        var pair := [asked, Slept(settings.delay)];
        CountAppend(pair, later.events, IsSleep);
        CountAppend(pair, later.events, failed);
        assert pair[1..] == [Slept(settings.delay)];
        assert failed(asked);
      case OtherError =>
        assert !failed(asked);
      case Data(rows) =>
        assert !failed(asked);
    }
  }

  /**
   * Over the whole fetch, `time.sleep(delay)` is called once per request that
   * raised `RequestException`; with a negative `delay` it is never completed,
   * and such a request ends the fetch.
   */
  lemma {:induction false} SleepsMatchFailures(provider: Provider, settings: Settings, keywords: seq<string>)
    ensures var run := FetchAll(provider, settings, keywords);
      var failures := Count(run.events, e => IsFailedRequest(provider, settings, e));
      && (settings.delay >= 0.0 ==> Count(run.events, IsSleep) == failures)
      && (settings.delay < 0.0 ==> Count(run.events, IsSleep) == 0 && failures <= 1 && (failures == 1 ==> run.aborted))
  {
    var failed := e => IsFailedRequest(provider, settings, e);
    if keywords != [] {
      var first := RunKeyword(provider, settings, keywords[0], 0);
      KeywordSleepsMatchFailures(provider, settings, keywords[0], 0);
      if !first.aborted {
        var rest := FetchAll(provider, settings, keywords[1..]);
        SleepsMatchFailures(provider, settings, keywords[1..]);
        CountAppend(first.events, rest.events, IsSleep);
        CountAppend(first.events, rest.events, failed);
      }
    }
  }

  /** With `retries` not positive no request is made and the result is empty. */
  lemma {:induction false} NoTriesNoRequests(provider: Provider, settings: Settings, keywords: seq<string>)
    requires settings.retries <= 0
    ensures FetchAll(provider, settings, keywords) == Run([], [], false)
  {
    if keywords != [] {
      NoTriesNoRequests(provider, settings, keywords[1..]);
    }
  }

  /** An empty keyword list makes no request and yields an empty table. */
  lemma {:induction false} EmptyKeywords(provider: Provider, settings: Settings)
    ensures FetchAll(provider, settings, []) == Run([], [], false)
  {
  }

  /**
   * The fetch is the keywords' contributions concatenated in keyword order:
   * what is accumulated for a prefix of the list is never changed by the
   * keywords after it, and once an exception escapes no later keyword is
   * requested.
   */
  lemma {:induction false} FetchAllAppend(provider: Provider, settings: Settings, a: seq<string>, b: seq<string>)
    ensures var before := FetchAll(provider, settings, a);
      FetchAll(provider, settings, a + b)
        == if before.aborted then before else Then(before, FetchAll(provider, settings, b))
  {
    if a == [] {
      assert a + b == b;
      var after := FetchAll(provider, settings, b);
      assert [] + after.rows == after.rows && [] + after.events == after.events;
    } else {
      assert (a + b)[0] == a[0] && (a + b)[1..] == a[1..] + b;
      FetchAllAppend(provider, settings, a[1..], b);
      var first := RunKeyword(provider, settings, a[0], 0);
      if !first.aborted {
        var mid := FetchAll(provider, settings, a[1..]);
        var after := FetchAll(provider, settings, b);
        assert first.rows + mid.rows + after.rows == first.rows + (mid.rows + after.rows);
        assert first.events + mid.events + after.events == first.events + (mid.events + after.events);
      }
    }
  }

  /** Every row of the fetch carries one of the requested keywords. */
  lemma {:induction false} RowsCarryTheirKeyword(provider: Provider, settings: Settings, keywords: seq<string>)
    ensures forall r :: r in FetchAll(provider, settings, keywords).rows ==> r.keyword in keywords
  {
    if keywords != [] {
      var first := RunKeyword(provider, settings, keywords[0], 0);
      KeywordBounds(provider, settings, keywords[0], 0);
      if !first.aborted {
        RowsCarryTheirKeyword(provider, settings, keywords[1..]);
        forall r | r in FetchAll(provider, settings, keywords).rows
          ensures r.keyword in keywords
        {
          if r !in first.rows {
            assert r in FetchAll(provider, settings, keywords[1..]).rows;
            assert r.keyword in keywords[1..];
          }
        }
      }
    }
  }

  /**
   * A keyword whose `n`-th try raises an exception other than
   * `RequestException`, after `n` failed tries (and, when `n > 0`, with a
   * `delay` that can be slept), ends the whole fetch: what was fetched before
   * it is all there is, and no later keyword is requested.
   */
  lemma {:induction false} OtherErrorEndsFetch(provider: Provider, settings: Settings, before: seq<string>, keyword: string, after: seq<string>, n: nat)
    requires n < settings.retries && (n == 0 || settings.delay >= 0.0)
    requires forall a: nat :: a < n ==> provider(RequestFor(settings, keyword), a) == RequestFailed
    requires provider(RequestFor(settings, keyword), n) == OtherError
    requires !FetchAll(provider, settings, before).aborted
    ensures FetchAll(provider, settings, before + [keyword] + after)
         == Then(FetchAll(provider, settings, before), Run([], Failures(keyword, n, settings.delay) + [Requested(keyword, n)], true))
  {
    var failed := Run([], Failures(keyword, n, settings.delay) + [Requested(keyword, n)], true);
    FailuresSoFar(provider, settings, keyword, n);
    assert RunKeyword(provider, settings, keyword, 0) == failed;
    assert FetchAll(provider, settings, [keyword]) == failed by {
      assert [keyword][0] == keyword;
    }
    FetchAllAppend(provider, settings, before, [keyword]);
    FetchAllAppend(provider, settings, before + [keyword], after);
  }

  /**
   * With a negative `delay`, a keyword whose first try raises
   * `RequestException` ends the whole fetch: the sleep raises `ValueError`,
   * so what was fetched before it is all there is, and no later keyword is
   * requested.
   */
  lemma {:induction false} NegativeDelayEndsFetch(provider: Provider, settings: Settings, before: seq<string>, keyword: string, after: seq<string>)
    requires settings.delay < 0.0 && settings.retries > 0
    requires provider(RequestFor(settings, keyword), 0) == RequestFailed
    requires !FetchAll(provider, settings, before).aborted
    ensures FetchAll(provider, settings, before + [keyword] + after)
         == Then(FetchAll(provider, settings, before), Run([], [Requested(keyword, 0)], true))
  {
    var failed := Run([], [Requested(keyword, 0)], true);
    assert FetchAll(provider, settings, [keyword]) == failed by {
      assert [keyword][0] == keyword;
    }
    FetchAllAppend(provider, settings, before, [keyword]);
    FetchAllAppend(provider, settings, before + [keyword], after);
  }

  /**
   * A keyword whose every try fails contributes nothing, and the keywords
   * after it are fetched as if it were not in the list; with a negative
   * `delay` (and tries to make) it ends the fetch instead.
   */
  lemma {:induction false} FailingKeywordSkipped(provider: Provider, settings: Settings, before: seq<string>, keyword: string, after: seq<string>)
    requires settings.retries >= 0
    requires forall a: nat :: a < settings.retries ==> provider(RequestFor(settings, keyword), a) == RequestFailed
    requires !FetchAll(provider, settings, before).aborted
    ensures var run := FetchAll(provider, settings, before + [keyword] + after);
      if settings.delay >= 0.0 || settings.retries == 0 then
        && run.rows == FetchAll(provider, settings, before).rows + FetchAll(provider, settings, after).rows
        && run.aborted == FetchAll(provider, settings, after).aborted
      else
        run.rows == FetchAll(provider, settings, before).rows && run.aborted
  {
    if settings.delay < 0.0 && settings.retries > 0 {
      NegativeDelayEndsFetch(provider, settings, before, keyword, after);
      assert FetchAll(provider, settings, before).rows + [] == FetchAll(provider, settings, before).rows;
      return;
    }
    var head := FetchAll(provider, settings, before);
    var single := FetchAll(provider, settings, [keyword]);
    var tail := FetchAll(provider, settings, after);
    assert single.rows == [] && !single.aborted by {
      AllTriesFail(provider, settings, keyword);
      var first := RunKeyword(provider, settings, keyword, 0);
      assert [keyword][0] == keyword && [keyword][1..] == [];
      assert single == Then(first, FetchAll(provider, settings, []));
    }
    var prefix := FetchAll(provider, settings, before + [keyword]);
    assert prefix == Then(head, single) by {
      FetchAllAppend(provider, settings, before, [keyword]);
    }
    assert head.rows + [] == head.rows;
    FetchAllAppend(provider, settings, before + [keyword], after);
  }

  // ---------------------------------------------------------------------------
  // The scraper object
  // ---------------------------------------------------------------------------

  /** `GoogleTrendsScraper`: the keywords and the request configuration. */
  class TrendsScraper {
    var keywords: seq<string>
    var timeframe: string
    var geo: string
    var category: int
    var retries: int
    var delay: real

    /** `__init__`, with the source's defaults. */
    constructor (keywords: seq<string>, timeframe: string := "today 3-m", geo: string := "",
                 category: int := 0, retries: int := 3, delay: real := 5.0)
      ensures this.keywords == keywords && this.timeframe == timeframe && this.geo == geo
      ensures this.category == category && this.retries == retries && this.delay == delay
    {
      this.keywords := keywords;
      this.timeframe := timeframe;
      this.geo := geo;
      this.category := category;
      this.retries := retries;
      this.delay := delay;
    }

    /** The stored configuration. */
    function Config(): Settings
      reads this
    {
      Settings(timeframe, geo, category, retries, delay)
    }

    /**
     * `fetch_trends`: for each keyword in order, the retry loop of
     * `FetchKeyword`, whose non-empty frames are appended to the accumulated
     * table. The result and the trace of requests and sleeps are those of
     * `FetchAll`.
     */
    method FetchTrends(provider: Provider) returns (result: FetchResult, events: seq<Event>)
      ensures var run := FetchAll(provider, Config(), keywords);
        && events == run.events
        && result == (if run.aborted then Aborted else Fetched(run.rows))
    {
      var settings := Config();
      var trendData: seq<Row> := [];
      events := [];
      var i := 0;
      while i < |keywords|
        invariant 0 <= i <= |keywords|
        invariant FetchAll(provider, settings, keywords) ==
          Then(Run(trendData, events, false), FetchAll(provider, settings, keywords[i..]))
      {
        var data, keywordEvents, aborted := FetchKeyword(provider, keywords[i]);
        if aborted {
          FetchAllAbortStep(provider, settings, keywords, i, Run(trendData, events, false));
          events := events + keywordEvents;
          result := Aborted;
          return;
        }
        FetchAllStep(provider, settings, keywords, i, Run(trendData, events, false));
        trendData := trendData + data;
        events := events + keywordEvents;
        i := i + 1;
      }
      result := Fetched(trendData);
    }

    /**
     * The inner loop of `fetch_trends` for one keyword: up to `retries` tries;
     * a `RequestException` is followed by a sleep of `delay` and another try
     * (or, when `delay` is negative, by the `ValueError` of the sleep, which
     * escapes), any other exception escapes, and the first frame ends the loop, its rows
     * tagged with the keyword when it is not empty.
     */
    method FetchKeyword(provider: Provider, keyword: string) returns (data: seq<Row>, events: seq<Event>, aborted: bool)
      ensures Run(data, events, aborted) == RunKeyword(provider, Config(), keyword, 0)
    {
      var settings := Config();
      var request := RequestFor(settings, keyword);
      data, events, aborted := [], [], false;
      var attempt := 0;
      while attempt < retries
        invariant events == Failures(keyword, attempt, delay)
        invariant RunKeyword(provider, settings, keyword, 0)
               == AfterFailures(keyword, attempt, delay, RunKeyword(provider, settings, keyword, attempt))
      {
        var response := provider(request, attempt);
        events := events + [Requested(keyword, attempt)];
        match response {
          case RequestFailed =>
            if delay < 0.0 {
              // `time.sleep` raises `ValueError` on a negative length.
              aborted := true;
              return;
            }
            FailedTryStep(provider, settings, keyword, attempt);
            events := events + [Slept(delay)];
            attempt := attempt + 1;
          case OtherError =>
            aborted := true;
            return;
          case Data(rows) =>
            if rows != [] {
              data := TagRows(rows, keyword);
            }
            return;
        }
      }
    }
  }
}
