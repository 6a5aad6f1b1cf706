/** Concrete names and timestamps that show the edge cases of the parser. */
module Scenarios {
  import opened Options
  import opened Text
  import opened Calendar
  import opened Timestamp
  import opened Filename
  import opened Archive

  /** 2023 is not a leap year, so 29 February 2023 is refused. */
  lemma FebruaryTwentyNinthOfCommonYear()
    ensures ParseTimestamp("20230229120000") == None
  {
    FieldsDigits("20230229120000");
  }

  /** 2024 is a leap year. */
  lemma FebruaryTwentyNinthOfLeapYear()
    ensures ParseTimestamp("20240229120000") == Some(DateTime(2024, 2, 29, 12, 0, 0))
  {
    FieldsDigits("20240229120000");
  }

  /** 1900 is a century not divisible by 400, so it is not a leap year. */
  lemma FebruaryTwentyNinthOf1900()
    ensures ParseTimestamp("19000229120000") == None
  {
    FieldsDigits("19000229120000");
  }

  /** The strptime pattern lets second 60 through; the `datetime` constructor refuses it. */
  lemma SecondSixty()
    ensures StrptimeMatch("20240101000060").Some?
    ensures ParseTimestamp("20240101000060") == None
  {
    FieldsDigits("20240101000060");
  }

  /** Year 0 matches `%Y` but lies below the first year `datetime` knows. */
  lemma YearZero()
    ensures StrptimeMatch("00000101000000").Some?
    ensures ParseTimestamp("00000101000000") == None
  {
    FieldsDigits("00000101000000");
  }

  /** Month 13 makes the month field fall back to one digit, leaving data unconverted. */
  lemma MonthThirteen()
    ensures StrptimeMatch("20241301000000") == None
  {
  }

  /** The parser alone accepts a `.htm` name and reports the extension `htm`. */
  lemma HtmParsed()
    ensures ExtractInfo("20240101080000news.htm").Some?
    ensures ExtractInfo("20240101080000news.htm").value.extension == "htm"
  {
    var name := "20240101080000news.htm";
    var g := Groups("20240101080000", "news", ".htm");
    assert name == g.timestamp + g.title + g.ext;
    assert IsMatch(name, g);
    FieldsDigits(g.timestamp);
    assert Fields(g.timestamp) == DateTime(2024, 1, 1, 8, 0, 0);
    assert IsValid(Fields(g.timestamp));
    ExtractInfoOfMatch(name, g);
  }

  /** The archive loop never hands the parser a `.htm` entry: only names ending in `.html` are looked at. */
  lemma HtmNotCollected()
    ensures Collect(["archive/20240101080000news.htm"]) == []
  {
    var entry := "archive/20240101080000news.htm";
    assert entry[|entry| - 1] == 'm';
    assert !EndsWith(entry, ".html");
    CollectOne(entry);
  }

  /** Surrounding blanks are stripped before underscores become spaces, so underscores at the ends survive as spaces. */
  lemma TitleWithOuterUnderscores()
    ensures NormalizeTitle(" _a_b_ ") == " a b "
  {
    var raw := " _a_b_ ";
    var stripped := "_a_b_";
    assert IsStripAt(raw, stripped, 1);
    StripUnique(raw, stripped, 1);
    var title := ReplaceChar(stripped, '_', ' ');
    assert title == " a b " by {
      assert |title| == 5;
      assert title[0] == ' ' && title[1] == 'a' && title[2] == ' ' && title[3] == 'b' && title[4] == ' ';
    }
  }
}
