/**
 * The tweet side of the pipeline: the rows the bot keeps from the scored
 * trend table, the choice of the top trend, and the text of the tweet.
 *
 * The CSV read, the Twitter authentication and posting, and the scheduling
 * loop are not modelled; the table arrives as a sequence of rows and the
 * `:.2f` rendering of the score is a parameter.
 */
module Bot {
  import opened Wrappers

  // ---------------------------------------------------------------------------
  // Loading the table
  // ---------------------------------------------------------------------------

  /** A row of the scored trend table as read from CSV; an empty cell is `None`. */
  datatype TRow = TRow(keyword: Option<string>, category: Option<string>, score: real)

  /** A row with both its keyword and its sentiment category present. */
  datatype Trend = Trend(keyword: string, category: string, score: real)

  predicate Complete(row: TRow) {
    row.keyword.Some? && row.category.Some?
  }

  /** The complete row as a trend. */
  function ToTrend(row: TRow): Trend
    requires Complete(row)
  {
    Trend(row.keyword.value, row.category.value, row.score)
  }

  /**
   * The table after `dropna` on the keyword and category columns: the rows
   * with both present, in their original order, whatever their score.
   */
  function LoadTrends(rows: seq<TRow>): (r: seq<Trend>)
    ensures |r| <= |rows|
  {
    if rows == [] then []
    else if Complete(rows[0]) then [ToTrend(rows[0])] + LoadTrends(rows[1..])
    else LoadTrends(rows[1..])
  }

  /** Number of complete rows. */
  function CompleteCount(rows: seq<TRow>): (n: nat)
    ensures n <= |rows|
  {
    if rows == [] then 0 else (if Complete(rows[0]) then 1 else 0) + CompleteCount(rows[1..])
  }

  /** Loading a concatenation loads each part and keeps them in order. */
  lemma {:induction false} LoadTrendsAppend(a: seq<TRow>, b: seq<TRow>)
    ensures LoadTrends(a + b) == LoadTrends(a) + LoadTrends(b)
  {
    if a == [] {
      assert a + b == b;
    } else {
      assert (a + b)[0] == a[0] && (a + b)[1..] == a[1..] + b;
      LoadTrendsAppend(a[1..], b);
    }
  }

  /** One trend per complete row: no complete row is lost and no incomplete row kept. */
  lemma {:induction false} LoadTrendsLength(rows: seq<TRow>)
    ensures |LoadTrends(rows)| == CompleteCount(rows)
  {
    if rows != [] {
      LoadTrendsLength(rows[1..]);
    }
  }

  /** A trend is loaded exactly when some complete row carries it, whatever its score. */
  lemma {:induction false} LoadTrendsMembership(rows: seq<TRow>, t: Trend)
    ensures t in LoadTrends(rows)
        <==> exists k :: 0 <= k < |rows| && rows[k] == TRow(Some(t.keyword), Some(t.category), t.score)
  {
    var row := TRow(Some(t.keyword), Some(t.category), t.score);
    if rows != [] {
      LoadTrendsMembership(rows[1..], t);
      if t in LoadTrends(rows) && rows[0] != row {
        assert t in LoadTrends(rows[1..]);
        var k :| 0 <= k < |rows[1..]| && rows[1..][k] == row;
        assert rows[k + 1] == row;
      }
      if t !in LoadTrends(rows) {
        assert rows[0] != row;
        forall k | 1 <= k < |rows| ensures rows[k] != row {
          assert rows[k] == rows[1..][k - 1];
        }
      }
    }
  }

  /** A table without missing cells loses no row and keeps each row's values. */
  lemma {:induction false} LoadTrendsKeepsCompleteTable(rows: seq<TRow>)
    requires forall k :: 0 <= k < |rows| ==> Complete(rows[k])
    ensures |LoadTrends(rows)| == |rows|
    ensures forall k :: 0 <= k < |rows| ==> LoadTrends(rows)[k] == ToTrend(rows[k])
  {
    if rows != [] {
      LoadTrendsKeepsCompleteTable(rows[1..]);
      forall k | 1 <= k < |rows| ensures LoadTrends(rows)[k] == ToTrend(rows[k]) {
        assert rows[k] == rows[1..][k - 1];
      }
    }
  }

  // ---------------------------------------------------------------------------
  // The top trend
  // ---------------------------------------------------------------------------

  /**
   * The index of a row with the highest sentiment score. Sorting by score
   * descending does not fix which of several equal-score rows comes first;
   * this function takes the first of them, a refinement of the sort.
   */
  function TopIndex(trends: seq<Trend>): (i: nat)
    requires trends != []
    ensures i < |trends|
    ensures forall k :: 0 <= k < |trends| ==> trends[k].score <= trends[i].score
    ensures forall k :: 0 <= k < i ==> trends[k].score < trends[i].score
  {
    if |trends| == 1 then 0
    else
      var j := TopIndex(trends[..|trends| - 1]);
      assert forall k :: 0 <= k < |trends| - 1 ==> trends[k] == trends[..|trends| - 1][k];
      if trends[|trends| - 1].score > trends[j].score then |trends| - 1 else j
  }

  /** Ordered by sentiment score, highest first. */
  predicate SortedDescending(trends: seq<Trend>) {
    forall i, j :: 0 <= i < j < |trends| ==> trends[i].score >= trends[j].score
  }

  /**
   * Whatever order a descending sort leaves equal scores in, its first row
   * is one of the table's rows and has the top score.
   */
  lemma {:induction false} SortedHeadIsTop(trends: seq<Trend>, sorted: seq<Trend>)
    requires trends != []
    requires multiset(sorted) == multiset(trends)
    requires SortedDescending(sorted)
    ensures sorted != [] && sorted[0] in trends
    ensures sorted[0].score == trends[TopIndex(trends)].score
  {
    var top := trends[TopIndex(trends)];
    assert top in multiset(sorted);
    assert sorted[0] in multiset(trends);
    var k :| 0 <= k < |sorted| && sorted[k] == top;
    var j :| 0 <= j < |trends| && trends[j] == sorted[0];
  }

  /** When the top score is held by one row only, every descending sort puts that row first. */
  lemma {:induction false} UniqueTopIsSortedHead(trends: seq<Trend>, sorted: seq<Trend>)
    requires trends != []
    requires multiset(sorted) == multiset(trends)
    requires SortedDescending(sorted)
    requires forall k :: 0 <= k < |trends| && k != TopIndex(trends) ==> trends[k].score < trends[TopIndex(trends)].score
    ensures sorted != [] && sorted[0] == trends[TopIndex(trends)]
  {
    SortedHeadIsTop(trends, sorted);
    var j :| 0 <= j < |trends| && trends[j] == sorted[0];
  }

  // ---------------------------------------------------------------------------
  // The tweet
  // ---------------------------------------------------------------------------

  const TrendingLabel: string := "Trending Now: "
  const SentimentLabel: string := "Sentiment: "
  const ScoreLabel: string := "Interest Score: "
  const Signature: string := "Stay updated with #GooAI."

  /** The tweet template: four lines, the third carrying the rendered sentiment score. */
  function Tweet(keyword: string, sentiment: string, score: string): string {
    TrendingLabel + keyword + "\n" + (SentimentLabel + sentiment + "\n" + (ScoreLabel + score + "\n" + Signature))
  }

  /** The error `iloc[0]` raises on an empty table. */
  datatype TweetError = EmptyTable

  /**
   * The tweet for the top trend. It fails exactly on an empty table;
   * otherwise its keyword, sentiment and score all come from one row whose
   * score is the highest in the table.
   */
  function GenerateTweet(trends: seq<Trend>, fmt: real -> string): (r: Result<string, TweetError>)
    ensures r.Failure? <==> trends == []
    ensures r.Failure? ==> r.error == EmptyTable
    ensures r.Success? ==>
      (exists i :: 0 <= i < |trends|
        && (forall k :: 0 <= k < |trends| ==> trends[k].score <= trends[i].score)
        && r.value == Tweet(trends[i].keyword, trends[i].category, fmt(trends[i].score)))
  {
    if trends == [] then Failure(EmptyTable)
    else
      var top := trends[TopIndex(trends)];
      Success(Tweet(top.keyword, top.category, fmt(top.score)))
  }

  /** The bot has something to post exactly when some row has both a keyword and a category. */
  lemma {:induction false} LoadedTableTweets(rows: seq<TRow>, fmt: real -> string)
    ensures GenerateTweet(LoadTrends(rows), fmt).Success? <==> CompleteCount(rows) > 0
  {
    LoadTrendsLength(rows);
  }

  // ---------------------------------------------------------------------------
  // Reading a tweet back
  // ---------------------------------------------------------------------------

  predicate NoNewline(s: string) {
    forall k :: 0 <= k < |s| ==> s[k] != '\n'
  }

  /** The text split at each newline. */
  function Lines(s: string): (r: seq<string>)
    ensures |r| >= 1
  {
    if s == [] then [""]
    else if s[0] == '\n' then [""] + Lines(s[1..])
    else
      var rest := Lines(s[1..]);
      [[s[0]] + rest[0]] + rest[1..]
  }

  /** Lines joined back together, a newline between each two. */
  function Unlines(lines: seq<string>): string
    requires |lines| >= 1
  {
    if |lines| == 1 then lines[0] else lines[0] + "\n" + Unlines(lines[1..])
  }

  /** Splitting at the newlines loses nothing: joining the lines gives back the text. */
  lemma {:induction false} LinesUnlines(s: string)
    ensures Unlines(Lines(s)) == s
  {
    if s == [] {
    } else if s[0] == '\n' {
      LinesUnlines(s[1..]);
      assert ([""] + Lines(s[1..]))[1..] == Lines(s[1..]);
      assert "" + "\n" + s[1..] == s;
    } else {
      var rest := Lines(s[1..]);
      LinesUnlines(s[1..]);
      var lines := [[s[0]] + rest[0]] + rest[1..];
      assert lines[1..] == rest[1..];
      if |rest| == 1 {
        assert [s[0]] + s[1..] == s;
      } else {
        assert Unlines(rest) == rest[0] + "\n" + Unlines(rest[1..]);
        assert [s[0]] + rest[0] + "\n" + Unlines(rest[1..]) == [s[0]] + (rest[0] + "\n" + Unlines(rest[1..]));
        assert [s[0]] + s[1..] == s;
      }
    }
  }

  /** Text without a newline is one line. */
  lemma {:induction false} LinesSingle(a: string)
    requires NoNewline(a)
    ensures Lines(a) == [a]
  {
    if a != [] {
      LinesSingle(a[1..]);
      assert [a[0]] + a[1..] == a;
    }
  }

  /** A newline after a line without one starts the next line. */
  lemma {:induction false} LinesJoin(a: string, b: string)
    requires NoNewline(a)
    ensures Lines(a + "\n" + b) == [a] + Lines(b)
  {
    if a == [] {
      assert a + "\n" + b == "\n" + b;
      assert ("\n" + b)[1..] == b;
    } else {
      var s := a + "\n" + b;
      assert s[0] == a[0] && s[1..] == a[1..] + "\n" + b;
      LinesJoin(a[1..], b);
      assert [a[0]] + a[1..] == a;
    }
  }

  /** The three fields a tweet carries. */
  datatype TweetFields = TweetFields(keyword: string, sentiment: string, score: string)

  predicate HasPrefix(s: string, p: string) {
    |p| <= |s| && s[..|p|] == p
  }

  /** Four lines joined back together. */
  lemma {:induction false} UnlinesFour(lines: seq<string>)
    requires |lines| == 4
    ensures Unlines(lines) == lines[0] + "\n" + (lines[1] + "\n" + (lines[2] + "\n" + lines[3]))
  {
    var tail2 := lines[1..][1..];
    assert lines[1..][0] == lines[1] && tail2[0] == lines[2] && tail2[1..] == [lines[3]];
    assert Unlines(tail2) == lines[2] + "\n" + lines[3];
    assert Unlines(lines[1..]) == lines[1] + "\n" + Unlines(tail2);
  }

  /** A text that starts with `p` is `p` followed by the rest. */
  lemma {:induction false} SplitPrefix(s: string, p: string)
    requires HasPrefix(s, p)
    ensures p + s[|p|..] == s
  {
    assert s == s[..|p|] + s[|p|..];
  }

  /**
   * The fields of a text laid out as the template lays them out, if it is:
   * whatever it accepts is exactly the tweet of the fields it returns.
   */
  function ParseTweet(text: string): (r: Option<TweetFields>)
    ensures r.Some? ==> Tweet(r.value.keyword, r.value.sentiment, r.value.score) == text
  {
    var lines := Lines(text);
    LinesUnlines(text);
    if |lines| == 4 && HasPrefix(lines[0], TrendingLabel) && HasPrefix(lines[1], SentimentLabel)
       && HasPrefix(lines[2], ScoreLabel) && lines[3] == Signature
    then
      SplitPrefix(lines[0], TrendingLabel);
      SplitPrefix(lines[1], SentimentLabel);
      SplitPrefix(lines[2], ScoreLabel);
      UnlinesFour(lines);
      Some(TweetFields(lines[0][|TrendingLabel|..], lines[1][|SentimentLabel|..], lines[2][|ScoreLabel|..]))
    else None
  }

  lemma {:induction false} LabelsHaveNoNewline()
    ensures NoNewline(TrendingLabel) && NoNewline(SentimentLabel) && NoNewline(ScoreLabel) && NoNewline(Signature)
  {
  }

  /** The line `head + field` gives back `field` once `head` is removed. */
  lemma {:induction false} PrefixedLine(head: string, field: string)
    ensures HasPrefix(head + field, head) && (head + field)[|head|..] == field
  {
    assert (head + field)[..|head|] == head;
  }

  /** Joining two texts without a newline gives a text without one. */
  lemma {:induction false} JoinNoNewline(a: string, b: string)
    requires NoNewline(a) && NoNewline(b)
    ensures NoNewline(a + b)
  {
    forall k | 0 <= k < |a + b| ensures (a + b)[k] != '\n' {
      if k >= |a| { assert (a + b)[k] == b[k - |a|]; }
    }
  }

  /** The lines of a tweet, when no field holds a newline. */
  lemma {:induction false} TweetLines(keyword: string, sentiment: string, score: string)
    requires NoNewline(keyword) && NoNewline(sentiment) && NoNewline(score)
    ensures Lines(Tweet(keyword, sentiment, score))
         == [TrendingLabel + keyword, SentimentLabel + sentiment, ScoreLabel + score, Signature]
  {
    LabelsHaveNoNewline();
    var l0, l1, l2 := TrendingLabel + keyword, SentimentLabel + sentiment, ScoreLabel + score;
    JoinNoNewline(TrendingLabel, keyword);
    JoinNoNewline(SentimentLabel, sentiment);
    JoinNoNewline(ScoreLabel, score);
    LinesSingle(Signature);
    LinesJoin(l2, Signature);
    LinesJoin(l1, l2 + "\n" + Signature);
    LinesJoin(l0, l1 + "\n" + (l2 + "\n" + Signature));
  }

  /** Reading a tweet back gives its keyword, sentiment and score, when none of them holds a newline. */
  lemma {:induction false} ParseTweetRoundTrip(keyword: string, sentiment: string, score: string)
    requires NoNewline(keyword) && NoNewline(sentiment) && NoNewline(score)
    ensures ParseTweet(Tweet(keyword, sentiment, score)) == Some(TweetFields(keyword, sentiment, score))
  {
    TweetLines(keyword, sentiment, score);
    PrefixedLine(TrendingLabel, keyword);
    PrefixedLine(SentimentLabel, sentiment);
    PrefixedLine(ScoreLabel, score);
  }
}
