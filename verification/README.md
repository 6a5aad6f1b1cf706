# WeChat article archive analyser: corpus statistics and file-name parsing

The system analyses exported WeChat public-account articles. This project
models two of its parts and proves properties of them.

- **The corpus aggregation** `ContentAnalyzer.analyze_content`. It takes the
  processed articles and builds three things:
  - a per-article summary list;
  - the total article count;
  - overall statistics: the average word count, the average sentiment score,
    and a topic distribution that counts articles per main topic in the order
    topics are first seen. The keyword frequency is never filled in.
- **The archive file-name parser** `extract_info_from_filename`, together
  with the loop of the web front end over an uploaded ZIP archive's entries.
  The loop keeps the entries whose name ends in `.html`, cuts each name to
  the text after its last `/`, and collects the records that parse.
  - A name parses when it matches `^(\d{14})(.*?)(\.html?)$`. The match
    follows Python's `re.match`: `.` does not match a line feed, and `$`
    matches at the end or before one final line feed.
  - The fourteen digits must also be accepted by
    `datetime.strptime(…, "%Y%m%d%H%M%S")`.
  - The record holds the digit string, the date, the title (stripped of
    whitespace, with underscores turned into spaces), the extension without
    its dot, and the name.

Modules:

| module | file | what it holds |
|---|---|---|
| `Options` | options.dfy | `Option`, and `FilterMap`: map to an optional value, then keep the values |
| `Histogram` | histogram.dfy | the counts dictionary as an insertion-ordered list of bins |
| `Analyzer` | analyzer.dfy | `analyze_content` |
| `Text` | text.dfy | the Python string methods the parser uses: `isspace`, `strip`, `lstrip`, `replace`, `endswith` and `split`, with `Join` as the inverse that pins `split` down |
| `Calendar` | calendar.dfy | the Gregorian rules of the `datetime` constructor |
| `Timestamp` | timestamp.dfy | `strptime` with the fixed fourteen-digit format |
| `Filename` | filename.dfy | the pattern match and `extract_info_from_filename` |
| `Archive` | archive.dfy | the loop over the archive entries |
| `Scenarios` | scenarios.dfy | concrete names and timestamps at the edges of the parser |

The topic distribution is a Python `dict`. Dicts keep insertion order, and
the reports list its keys in that order. So it is modelled as a list of
`(key, count)` bins, and the model proves that the keys come in
first-occurrence order.

The counts are checked against an independent reference, the multiset of the
articles' topics. The averages are checked against the sums they divide. The
parser is related to a declarative predicate, `IsMatch`, that states when a
name splits into the three groups. `Strip` is related to a declarative
description, `IsStripAt`. `Split` is related to its inverse `Join`.

## Model

| member | source | states |
|---|---|---|
| Analyzer.AnalyzeContent | modules/analyzer.py:5-51 | The total is the number of articles, and there is one summary per article, in input order, copying title, word count, sentiment score, main topic, keywords and readability. The topic distribution has distinct keys, exactly the topics that occur, and counts each topic as often as it occurs in the batch. Its counts add up to the total, and its keys appear in order of first occurrence. Both averages are the guarded means of the sums over all articles. An empty batch gives an empty list, zero averages and an empty distribution. The keyword frequency stays empty. |
| Analyzer.Accumulate | modules/analyzer.py:19-43 | The loop produces the per-article summaries in order, the word and sentiment sums over all articles, and the topic counts tallied article by article. |
| Analyzer.Summarize | modules/analyzer.py:24-31 | The summary dict of one article: its title, word count, sentiment score, main topic, keywords and readability. What it copies is stated per field in AnalyzeContent's contract. |
| Analyzer.GuardedMean | modules/analyzer.py:46-49 | With at least one article, the average multiplied by the article count gives back the sum. With none, the average keeps its initial value 0. |
| Histogram.Increment | modules/analyzer.py:38-40 | `d[k] = d.get(k, 0) + 1` raises the count of `k` by one and leaves every other count unchanged. |
| Histogram.Get | modules/analyzer.py:40 | `d.get(k, 0)`: the count stored under `k`, with 0 as the default. GetAbsent states the default, Increment and TallyCounts state the stored counts. |
| Histogram.GetAbsent | modules/analyzer.py:40 | A key the dictionary does not hold reads as 0, the default passed to `get`. |
| Histogram.IncrementKeys | modules/analyzer.py:39-40 | Incrementing an existing key keeps the key order. A new key is appended at the end. |
| Histogram.IncrementTotal | modules/analyzer.py:39-40 | Each increment raises the sum of the counts by exactly one. |
| Histogram.IncrementDistinct | modules/analyzer.py:39-40 | Incrementing keeps every key occurring once. |
| Histogram.Tally | modules/analyzer.py:37-40 | The topic counts built by incrementing an empty dictionary once per topic, left to right. TallyKeys, TallyCounts and TallyFirstOccurrenceOrder relate it to the multiset and order of the topics. |
| Histogram.TallyKeys | modules/analyzer.py:37-40 | Counting a sequence of topics gives distinct keys, and they are exactly the topics that occur. |
| Histogram.TallyCounts | modules/analyzer.py:37-40 | Each topic's count equals its multiplicity in the sequence, and the counts add up to the sequence's length. |
| Histogram.FirstIndexExtend | modules/analyzer.py:38-40 | Appending an element does not move the first occurrence of a value that already occurred. |
| Histogram.OrderExtend | modules/analyzer.py:38-40 | Keys in first-occurrence order stay in that order when an element is appended, and a value seen for the first time can be appended as the last key. |
| Histogram.TallyFirstOccurrenceOrder | modules/analyzer.py:37-40 | The keys of the tally appear in the order of their first occurrence in the sequence. |
| Options.FilterMap | app.py:100-105 | Collecting the optional results of a sequence never yields more values than there are elements. |
| Options.FilterMapMembers | app.py:100-105 | A value is collected if and only if some element produced it. |
| Options.FilterMapAppend | app.py:100-105 | Collecting over a concatenation gives the two collections one after the other, so input order is kept. |
| Archive.Keep | app.py:101-104 | The loop body for one entry: a record only for a name ending in `.html`. CollectOne and KeptIsHtml pin down what it keeps. |
| Archive.Collect | app.py:100-105 | The loop over all entries never collects more records than there are entries. CollectOne, CollectAppend and CollectMembers pin down which records, and in what order. |
| Archive.CollectMembers | app.py:100-105 | A record is collected if and only if some archive entry ends in `.html` and its last path segment parses to that record. |
| Archive.CollectAppend | app.py:100-105 | Records are collected in archive order: entries processed one after another contribute their records in that order. |
| Archive.CollectOne | app.py:100-105 | A single entry contributes its record when it is kept, and nothing otherwise. |
| Archive.KeptIsHtml | app.py:101-103 | A kept entry's record has extension `html`, and its file name is the entry's text after the last `/`. |
| Archive.CollectedAreHtml | app.py:100-105 | Every collected record has extension `html` and a file name without `/`, even though the parser alone also accepts `.htm`. |
| Text.Split | app.py:102 | `split('/')` gives at least one part, no part holds the separator, and joining the parts with the separator gives the string back. |
| Text.SplitJoin | app.py:102 | Splitting a join of separator-free parts gives the parts back. |
| Text.SplitNoSeparator | app.py:102 | A string without the separator splits into itself alone. |
| Text.SplitPrefix | app.py:102 | Splitting `p + sep + q`, with `p` free of the separator, gives `p` followed by the parts of `q`. |
| Text.JoinLast | app.py:102 | A join of two or more parts is the join of all but the last, then the separator, then the last part. |
| Text.LastSegment | app.py:102 | `split('/')[-1]` holds no `/`, ends the name, and is either the whole name or preceded by a `/`. |
| Text.LastSegmentKeepsSuffix | app.py:101-102 | A suffix without `/`, such as `.html`, is still a suffix of the last segment. |
| Text.EndsWith | app.py:101 | `endswith(suffix)`: the last characters of the string are the suffix. LastSegmentKeepsSuffix and KeptIsHtml use it for the `.html` filter. |
| Text.IsSpace | app.py:32 | The characters Python 3's `str.isspace` accepts, which are the ones `strip()` removes. StripSpec and StripUnique are stated with it. |
| Text.LStripSpace | app.py:32 | `lstrip()` removes a prefix made only of whitespace, and what is left does not start with whitespace. |
| Text.RStripSpace | app.py:32 | `rstrip()` removes a suffix made only of whitespace, and what is left does not end with whitespace. |
| Text.LStripChar | app.py:37 | `lstrip('.')` removes a prefix made only of dots, and what is left does not start with a dot. |
| Text.Strip | app.py:32 | `strip()` never lengthens the string. StripSpec and StripUnique pin it down as the unique slice with whitespace before and after it and none at its ends. |
| Text.StripSpec | app.py:32 | `strip()` keeps a slice of the string, everything before and after it is whitespace, and the slice neither starts nor ends with whitespace. |
| Text.StripUnique | app.py:32 | Any slice with those properties is the one `strip()` returns. |
| Text.ReplaceChar | app.py:32 | `replace('_', ' ')` keeps the length, changes every underscore to a space and leaves every other character as it was, so no underscore is left. |
| Calendar.DaysInMonth | app.py:31 | February has 29 days exactly in leap years and 28 otherwise. April, June, September and November have 30 days, and every other month has 31. |
| Calendar.IsLeapYear | app.py:31 | The Gregorian rule `datetime` uses: divisible by 4, except centuries not divisible by 400. DaysInMonth and YearLength are stated with it. |
| Calendar.IsValid | app.py:31 | The ranges the `datetime` constructor checks: year 1-9999, month 1-12, day within the month's length, hour below 24, minute and second below 60. MakeDateTime and ParseTimestamp accept exactly these. |
| Calendar.YearLength | app.py:31 | The twelve month lengths add up to 366 days in a leap year and 365 otherwise. |
| Timestamp.FieldsDigits | app.py:31 | The six date fields are the decimal values of the digit groups of widths 4, 2, 2, 2, 2 and 2. |
| Timestamp.StrptimeMatch | app.py:31 | The format matches all fourteen digits exactly when the month is 1-12, the day 1-31, the hour at most 23, the minute at most 59 and the second at most 61. It then reads the fixed-width fields. |
| Timestamp.MakeDateTime | app.py:31 | The `datetime` constructor accepts the fields exactly when they form a valid date and time, and then keeps them unchanged. |
| Timestamp.ParseTimestamp | app.py:31 | Parsing fourteen digits succeeds exactly when their fields form a valid date and time, and yields those fields. |
| Filename.MatchName | app.py:26-29 | Any split the matcher returns satisfies the pattern: fourteen digits, a title without a line feed, and a `.html` or `.htm` suffix, at the end or before one final line feed. |
| Filename.MatchNameComplete | app.py:26-29 | Any split satisfying the pattern is the one the matcher returns, so the groups are unique and the lazy title does not matter. |
| Filename.NormalizeTitle | app.py:32 | The title has no underscore and the length of the stripped raw title. Each character is the stripped title's character, with `_` turned into a space. |
| Filename.Extension | app.py:37 | `ext.lstrip('.')` on `.html` or `.htm` is the suffix without its dot. |
| Filename.ExtractInfo | app.py:24-42 | A record is returned exactly when the name matches and its digits are a valid date and time. The record holds the digit group, the date read from it, the normalised title, the suffix without its dot, and the name unchanged. |
| Filename.NoMatchNoInfo | app.py:42 | A name that admits no split yields `None`. |
| Filename.ExtractInfoOfMatch | app.py:28-41 | For a name with a given split, parsing succeeds exactly when the digits are a valid date and time. The timestamp is the first fourteen characters of the name, the extension is `html` exactly for `.html` and `htm` exactly for `.htm`, and the title and name are as above. |
| Filename.HtmlNameHasHtmlExtension | app.py:26-37 | A name ending in `.html` that parses has extension `html`. |
| Scenarios.FebruaryTwentyNinthOfCommonYear | app.py:31 | `20230229120000` is refused, because 2023 is not a leap year. |
| Scenarios.FebruaryTwentyNinthOfLeapYear | app.py:31 | `20240229120000` is noon on 29 February 2024. |
| Scenarios.FebruaryTwentyNinthOf1900 | app.py:31 | `19000229120000` is refused, because 1900 is a century not divisible by 400. |
| Scenarios.SecondSixty | app.py:31 | Second 60 passes the format but is refused by the `datetime` constructor. |
| Scenarios.YearZero | app.py:31 | Year 0000 passes the format but is refused by the `datetime` constructor. |
| Scenarios.MonthThirteen | app.py:31 | Month 13 does not let the format take fourteen digits. |
| Scenarios.HtmParsed | app.py:26-37 | The parser alone accepts `20240101080000news.htm` and reports the extension `htm`. |
| Scenarios.HtmNotCollected | app.py:101 | The archive loop does not collect the entry `archive/20240101080000news.htm`. |
| Scenarios.TitleWithOuterUnderscores | app.py:32 | Stripping comes before the underscore replacement, so ` _a_b_ ` becomes ` a b `, with spaces at both ends. |

## Left out

- The crawler, the article processor's enrichment, the report generator, the
  command-line entry point, the package setup and the Streamlit pages and
  charts (`analyze_files`, the upload widget, pandas, matplotlib and plotly).
  They are I/O or presentation. The model takes the processed articles and
  the archive's entry names as plain inputs.
- Opening the ZIP archive: `ZipFile.namelist()` is a sequence of strings in
  the model.
- The keyword and readability payloads of a processed article are only
  copied by the analyzer. They are type parameters, and the processor that
  builds them is not part of this model.
- Analyzer.AnalyzeContent: the averages are exact real numbers, not
  floating-point values. The initial average is the integer 0 in the source
  and `0.0` here. Sentiment scores are arbitrary reals.
- Filename.MatchName: `\d` is limited to the ASCII digits `0`-`9`. Python's
  `re` also accepts other Unicode decimal digits, and `int()` reads them.
- Timestamp.ParseTimestamp: it is defined only on fourteen ASCII digits,
  which is all the pattern can hand it. Calendar dates beyond the six fields
  (time zone, microseconds, weekday) are not modelled.
- Text.LStripChar: it removes one given character, while `lstrip(chars)`
  removes any character of a set. The parser calls it only with `'.'`.
- Text.IsSpace: it lists the characters Python 3's `str.isspace` accepts,
  taken from the Unicode database as a fixed list.
- Options: `if info:` in the loop is modelled as `info is not None`. Every
  record the parser returns is a non-empty dictionary, so both tests agree.
