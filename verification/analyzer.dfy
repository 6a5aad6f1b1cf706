/**
  The corpus aggregation of `ContentAnalyzer.analyze_content`: one pass over
  the processed articles that copies a summary of each, sums word counts and
  sentiment scores, counts articles per main topic and divides the sums by
  the number of articles when there is at least one.
 */
module Analyzer {
  import opened Histogram

  datatype Sentiment = Sentiment(score: real)

  datatype TopicCategory = TopicCategory(mainTopic: string)

  /**
    The fields of a processed article that the analyzer reads. The keyword and
    readability payloads are produced by code outside this model and are only
    copied, so their types are left as parameters.
   */
  datatype ProcessedArticle<K, R> = ProcessedArticle(
    title: string,
    wordCount: nat,
    sentiment: Sentiment,
    topicCategory: TopicCategory,
    keywords: K,
    readability: R)

  /** One entry of `article_analysis`. */
  datatype ArticleAnalysis<K, R> = ArticleAnalysis(
    title: string,
    wordCount: nat,
    sentimentScore: real,
    topic: string,
    keywords: K,
    readability: R)

  /** The `overall_stats` record. */
  datatype OverallStats = OverallStats(
    avgWordCount: real,
    avgSentimentScore: real,
    topicDistribution: Hist,
    keywordFrequency: Hist)

  datatype AnalysisResult<K, R> = AnalysisResult(
    totalArticles: nat,
    articleAnalysis: seq<ArticleAnalysis<K, R>>,
    overallStats: OverallStats)

  /** The per-article summary built at the top of the loop body. */
  function Summarize<K, R>(a: ProcessedArticle<K, R>): ArticleAnalysis<K, R> {
    ArticleAnalysis(a.title, a.wordCount, a.sentiment.score, a.topicCategory.mainTopic,
                    a.keywords, a.readability)
  }

  /** Sum of the word counts, accumulated from the left. */
  function TotalWords<K, R>(articles: seq<ProcessedArticle<K, R>>): nat {
    if articles == [] then 0
    else TotalWords(articles[..|articles| - 1]) + articles[|articles| - 1].wordCount
  }

  /** Sum of the sentiment scores, accumulated from the left. */
  function TotalSentiment<K, R>(articles: seq<ProcessedArticle<K, R>>): real {
    if articles == [] then 0.0
    else TotalSentiment(articles[..|articles| - 1]) + articles[|articles| - 1].sentiment.score
  }

  /** The main topic of every article, in input order. */
  function Topics<K, R>(articles: seq<ProcessedArticle<K, R>>): (ts: seq<string>)
    ensures |ts| == |articles|
    ensures forall i :: 0 <= i < |articles| ==> ts[i] == articles[i].topicCategory.mainTopic
  {
    seq(|articles|, i requires 0 <= i < |articles| => articles[i].topicCategory.mainTopic)
  }

  /** The loop of `analyze_content`: the per-article list, both running sums and the topic counts. */
  method Accumulate<K, R>(articles: seq<ProcessedArticle<K, R>>)
    returns (analysis: seq<ArticleAnalysis<K, R>>, distribution: Hist, totalWords: nat, totalSentiment: real)
    ensures |analysis| == |articles|
    ensures forall j :: 0 <= j < |articles| ==> analysis[j] == Summarize(articles[j])
    ensures totalWords == TotalWords(articles)
    ensures totalSentiment == TotalSentiment(articles)
    ensures distribution == Tally(Topics(articles))
  {
    analysis := [];
    distribution := [];
    totalWords := 0;
    totalSentiment := 0.0;
    var i := 0;
    while i < |articles|
      invariant 0 <= i <= |articles|
      invariant |analysis| == i
      invariant forall j :: 0 <= j < i ==> analysis[j] == Summarize(articles[j])
      invariant totalWords == TotalWords(articles[..i])
      invariant totalSentiment == TotalSentiment(articles[..i])
      invariant distribution == Tally(Topics(articles[..i]))
    {
      var article := articles[i];
      assert articles[..i + 1][..i] == articles[..i];
      assert Topics(articles[..i + 1])[..i] == Topics(articles[..i]);
      assert Tally(Topics(articles[..i + 1]))
          == Increment(Tally(Topics(articles[..i])), article.topicCategory.mainTopic);
      totalWords := totalWords + article.wordCount;
      totalSentiment := totalSentiment + article.sentiment.score;
      distribution := Increment(distribution, article.topicCategory.mainTopic);
      analysis := analysis + [Summarize(article)];
      i := i + 1;
    }
    assert articles[..i] == articles;
  }

  /** `analyze_content`. */
  method AnalyzeContent<K, R>(articles: seq<ProcessedArticle<K, R>>) returns (r: AnalysisResult<K, R>)
    // one entry per article, in input order, each copying the article's fields
    ensures r.totalArticles == |articles|
    ensures |r.articleAnalysis| == |articles|
    ensures forall i :: 0 <= i < |articles| ==>
      && r.articleAnalysis[i].title == articles[i].title
      && r.articleAnalysis[i].wordCount == articles[i].wordCount
      && r.articleAnalysis[i].sentimentScore == articles[i].sentiment.score
      && r.articleAnalysis[i].topic == articles[i].topicCategory.mainTopic
      && r.articleAnalysis[i].keywords == articles[i].keywords
      && r.articleAnalysis[i].readability == articles[i].readability
    // the topic distribution counts each topic's articles, in first-seen order, and holds no other key
    ensures DistinctKeys(r.overallStats.topicDistribution)
    ensures forall t :: Get(r.overallStats.topicDistribution, t) == multiset(Topics(articles))[t]
    ensures forall t :: t in Keys(r.overallStats.topicDistribution) <==> t in Topics(articles)
    ensures Total(r.overallStats.topicDistribution) == r.totalArticles
    ensures InFirstOccurrenceOrder(Keys(r.overallStats.topicDistribution), Topics(articles))
    // both averages are the guarded means of the sums over all articles
    ensures r.overallStats.avgWordCount == GuardedMean(TotalWords(articles) as real, |articles|)
    ensures r.overallStats.avgSentimentScore == GuardedMean(TotalSentiment(articles), |articles|)
    // an empty batch gives an empty list, zero averages and an empty distribution
    ensures |articles| == 0 ==>
      && r.articleAnalysis == []
      && r.overallStats.avgWordCount == 0.0
      && r.overallStats.avgSentimentScore == 0.0
      && r.overallStats.topicDistribution == []
    // nothing ever writes the keyword frequency
    ensures r.overallStats.keywordFrequency == []
  {
    var analysis, distribution, totalWords, totalSentiment := Accumulate(articles);
    TallyKeys(Topics(articles));
    TallyCounts(Topics(articles));
    TallyFirstOccurrenceOrder(Topics(articles));
    var articleCount := |articles|;
    var avgWords := GuardedMean(totalWords as real, articleCount);
    var avgSentiment := GuardedMean(totalSentiment, articleCount);
    r := AnalysisResult(articleCount, analysis, OverallStats(avgWords, avgSentiment, distribution, []));
  }

  /**
    An average that stays at its initial value 0 when there is nothing to
    average over, and otherwise is the sum divided by the count.
   */
  function GuardedMean(sum: real, count: nat): (mean: real)
    ensures count > 0 ==> mean * (count as real) == sum
    ensures count == 0 ==> mean == 0.0
  {
    if count > 0 then sum / (count as real) else 0.0
  }
}
