/**
  `extract_info_from_filename`: the pattern match that splits an archived
  file name into its groups, and the record built from them.

  The name must match `^(\d{14})(.*?)(\.html?)$` with Python's `re.match`:
  `.` does not match a line feed, and `$` matches at the end of the string or
  just before a line feed that ends it. The fourteen digits must then read as
  a valid date and time.
 */
module Filename {
  import opened Options
  import opened Text
  import opened Calendar
  import opened Timestamp

  /** The three capture groups of the pattern. */
  datatype Groups = Groups(timestamp: string, title: string, ext: string)

  /** The dictionary the parser returns. */
  datatype FileInfo = FileInfo(
    timestamp: string,
    date: DateTime,
    title: string,
    extension: string,
    filename: string)

  /**
    `name` splits into fourteen digits, a title without line feeds and a
    `.html` or `.htm` suffix, optionally followed by one final line feed.
   */
  predicate IsMatch(name: string, g: Groups) {
    && |g.timestamp| == 14 && AllDigits(g.timestamp)
    && '\n' !in g.title
    && (g.ext == ".html" || g.ext == ".htm")
    && (name == g.timestamp + g.title + g.ext || name == g.timestamp + g.title + g.ext + "\n")
  }

  /** The part of the string that `$` allows the match to cover. */
  function DropFinalNewline(s: string): (r: string)
    ensures r == s || r + "\n" == s
    ensures |r| > 0 && r[|r| - 1] == '\n' ==> r + "\n" == s
  {
    if |s| > 0 && s[|s| - 1] == '\n' then s[..|s| - 1] else s
  }

  /** `re.match(pattern, name)`, returning the capture groups. */
  function MatchName(name: string): (r: Option<Groups>)
    ensures r.Some? ==> IsMatch(name, r.value)
  {
    var s := DropFinalNewline(name);
    if |s| < 14 || !AllDigits(s[..14]) then None
    else if EndsWith(s, ".html") && |s| >= 19 && '\n' !in s[14..|s| - 5] then
      assert s == s[..14] + s[14..|s| - 5] + ".html";
      Some(Groups(s[..14], s[14..|s| - 5], ".html"))
    else if EndsWith(s, ".htm") && |s| >= 18 && '\n' !in s[14..|s| - 4] then
      assert s == s[..14] + s[14..|s| - 4] + ".htm";
      Some(Groups(s[..14], s[14..|s| - 4], ".htm"))
    else None
  }

  /** Every split the pattern admits is the one `MatchName` finds: the groups are unique. */
  lemma MatchNameComplete(name: string, g: Groups)
    requires IsMatch(name, g)
    ensures MatchName(name) == Some(g)
  {
    var body := g.timestamp + g.title + g.ext;
    assert body[|body| - 1] == g.ext[|g.ext| - 1];
    assert DropFinalNewline(name) == body by {
      if name == body + "\n" {
        assert name[..|name| - 1] == body;
      }
    }
    assert body[..14] == g.timestamp;
    assert body[|body| - |g.ext|..] == g.ext;
    assert body[14..|body| - |g.ext|] == g.title;
    if g.ext == ".htm" {
      assert body[|body| - 1] == 'm';
      assert !EndsWith(body, ".html");
    }
  }

  /** The normalised title: `title.strip().replace('_', ' ')`. */
  function NormalizeTitle(raw: string): (title: string)
    ensures '_' !in title
    ensures |title| == |Strip(raw)|
    ensures forall k :: 0 <= k < |title| ==>
      title[k] == (if Strip(raw)[k] == '_' then ' ' else Strip(raw)[k])
  {
    var stripped := Strip(raw);
    ReplaceChar(stripped, '_', ' ')
  }

  /** `ext.lstrip('.')`: the suffix without its dot. */
  function Extension(ext: string): (e: string)
    requires ext == ".html" || ext == ".htm"
    ensures e == ext[1..]
  {
    var e := LStripChar(ext, '.');
    assert ext[1] == 'h' && e[0] != '.';
    e
  }

  /** `extract_info_from_filename`. */
  function ExtractInfo(filename: string): (r: Option<FileInfo>)
    ensures r.Some? <==>
      MatchName(filename).Some? && IsValid(Fields(MatchName(filename).value.timestamp))
    ensures r.Some? ==>
      var g := MatchName(filename).value;
      && r.value.timestamp == g.timestamp
      && r.value.date == Fields(g.timestamp)
      && r.value.title == NormalizeTitle(g.title)
      && r.value.extension == g.ext[1..]
      && r.value.filename == filename
  {
    match MatchName(filename)
    case None => None
    case Some(g) =>
      match ParseTimestamp(g.timestamp)
      case None => None
      case Some(date) =>
        Some(FileInfo(g.timestamp, date, NormalizeTitle(g.title), Extension(g.ext), filename))
  }

  /** A name the pattern cannot split yields `None`. */
  lemma NoMatchNoInfo(filename: string)
    requires forall g :: !IsMatch(filename, g)
    ensures ExtractInfo(filename) == None
  {
  }

  /**
    Given the split of a name, the parser succeeds exactly when the digits
    are a valid date and time, and then reports the digit groups, the
    normalised title, the suffix without its dot and the name itself.
   */
  lemma ExtractInfoOfMatch(filename: string, g: Groups)
    requires IsMatch(filename, g)
    ensures ExtractInfo(filename).Some? <==> IsValid(Fields(g.timestamp))
    ensures ExtractInfo(filename).Some? ==>
      && ExtractInfo(filename).value.timestamp == g.timestamp == filename[..14]
      && ExtractInfo(filename).value.date == Fields(g.timestamp)
      && ExtractInfo(filename).value.title == NormalizeTitle(g.title)
      && (ExtractInfo(filename).value.extension == "html" <==> g.ext == ".html")
      && (ExtractInfo(filename).value.extension == "htm" <==> g.ext == ".htm")
      && ExtractInfo(filename).value.filename == filename
  {
    MatchNameComplete(filename, g);
    var body := g.timestamp + g.title + g.ext;
    assert body[..14] == g.timestamp;
    assert filename[..14] == body[..14] by {
      if filename != body {
        assert filename == body + "\n";
      }
    }
  }

  /** A name ending in `.html` can only split with the `.html` suffix. */
  lemma HtmlNameHasHtmlExtension(name: string)
    requires EndsWith(name, ".html")
    ensures ExtractInfo(name).Some? ==> ExtractInfo(name).value.extension == "html"
  {
    if MatchName(name).Some? {
      var g := MatchName(name).value;
      var body := g.timestamp + g.title + g.ext;
      assert name[|name| - 1] == 'l';
      assert body[|body| - 1] == g.ext[|g.ext| - 1];
      assert name == body;
      assert g.ext == ".html";
      assert ExtractInfo(name).Some? ==> ExtractInfo(name).value.extension == g.ext[1..];
    }
  }
}
