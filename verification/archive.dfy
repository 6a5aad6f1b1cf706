/**
  The loop of `main` over the entries of an uploaded archive: entries whose
  name ends in `.html` are cut to the text after their last `/`, parsed, and
  the records of those that parse are collected in archive order.
 */
module Archive {
  import opened Options
  import opened Text
  import opened Filename

  /** The loop body of `main` for one archive entry: only `.html` entries, by the name after the last `/`. */
  function Keep(entry: string): (r: Option<FileInfo>)
    ensures r.Some? ==> EndsWith(entry, ".html")
  {
    if EndsWith(entry, ".html") then ExtractInfo(LastSegment(entry, '/')) else None
  }

  /** The records `main` collects from the archive entries. */
  function Collect(entries: seq<string>): (records: seq<FileInfo>)
    ensures |records| <= |entries|
  {
    FilterMap(entries, Keep)
  }

  /** A record is collected exactly when some entry is kept as that record. */
  lemma CollectMembers(entries: seq<string>)
    ensures forall f :: f in Collect(entries) ==>
      exists i :: 0 <= i < |entries| && Keep(entries[i]) == Some(f)
    ensures forall i :: 0 <= i < |entries| && Keep(entries[i]).Some? ==>
      Keep(entries[i]).value in Collect(entries)
  {
    FilterMapMembers(entries, Keep);
  }

  /** Collecting two runs of entries one after the other: the records keep the order of the archive. */
  lemma CollectAppend(a: seq<string>, b: seq<string>)
    ensures Collect(a + b) == Collect(a) + Collect(b)
  {
    FilterMapAppend(a, b, Keep);
  }

  /** One entry contributes its record when it is kept, and nothing otherwise. */
  lemma CollectOne(entry: string)
    ensures Collect([entry]) == if Keep(entry).Some? then [Keep(entry).value] else []
  {
    assert [entry][..0] == [];
  }

  /** An entry that is kept is a `.html` file, whichever of the two suffixes the parser allows. */
  lemma KeptIsHtml(entry: string)
    ensures Keep(entry).Some? ==>
      && Keep(entry).value.extension == "html"
      && Keep(entry).value.filename == LastSegment(entry, '/')
  {
    if EndsWith(entry, ".html") {
      var base := LastSegment(entry, '/');
      LastSegmentKeepsSuffix(entry, ".html", '/');
      HtmlNameHasHtmlExtension(base);
      assert Keep(entry) == ExtractInfo(base);
    } else {
      assert Keep(entry) == None;
    }
  }

  /** Every record of the collection has the extension `html` and a name without `/`. */
  lemma {:induction false} CollectedAreHtml(entries: seq<string>)
    ensures forall f :: f in Collect(entries) ==> f.extension == "html" && '/' !in f.filename
  {
    CollectMembers(entries);
    forall f | f in Collect(entries)
      ensures f.extension == "html" && '/' !in f.filename
    {
      var i :| 0 <= i < |entries| && Keep(entries[i]) == Some(f);
      KeptIsHtml(entries[i]);
      assert '/' !in LastSegment(entries[i], '/');
    }
  }
}
