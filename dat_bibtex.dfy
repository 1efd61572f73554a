/**
 * dat/parse_bibtex.py: the older record pipeline. Titles are formatted as
 * in donut (the two `fix_raw_latex` and `format_title` are the same code,
 * modelled once in `DonutBibtex`); authors get an initial for their middle
 * name, and a record keeps only title, authors, identifier and type.
 */
module DatBibtex {
  import opened Results
  import opened Seqs
  import opened Text
  import DonutBibtex

  type BibEntry = DonutBibtex.BibEntry
  type Error = DonutBibtex.Error
  type Libraries = DonutBibtex.Libraries

  /** `initialise(name, pad)`: the padded initial of a name with a full stop, or nothing for no name. */
  function Initialise(name: string, pad: string): (r: string)
    ensures name == "" ==> r == ""
    ensures name != "" ==> |r| == |pad| + 2 && r[..|pad|] == pad && r[|pad|] == name[0] && r[|pad| + 1] == '.'
  {
    if name != "" then pad + [name[0]] + "." else ""
  }

  /** One formatted author: first name, middle initial, last name. */
  function FormattedAuthor(author: string, lib: Libraries): string
  {
    var name := lib.humanName(DonutBibtex.NameOrder(author));
    name.first + Initialise(name.middle, " ") + " " + name.last
  }

  method FormatAuthors(authors: seq<string>, lib: Libraries) returns (output: seq<string>)
    ensures |output| == |authors|
    ensures forall i :: 0 <= i < |authors| ==> output[i] == FormattedAuthor(authors[i], lib)
  {
    output := [];
    for i := 0 to |authors|
      invariant |output| == i
      invariant forall k :: 0 <= k < i ==> output[k] == FormattedAuthor(authors[k], lib)
    {
      var nameParts := Split(authors[i], ',');
      var reordered := Join(DonutBibtex.StripAll(Reverse(nameParts)), ' ');
      var name := lib.humanName(reordered);
      output := output + [name.first + Initialise(name.middle, " ") + " " + name.last];
    }
  }

  /** Without a middle name the result is "First Last", with a single space. */
  lemma EmptyMiddleSingleSpace(author: string, lib: Libraries)
    requires lib.humanName(DonutBibtex.NameOrder(author)).middle == ""
    ensures var name := lib.humanName(DonutBibtex.NameOrder(author));
      FormattedAuthor(author, lib) == name.first + " " + name.last
  {
  }

  /** With a middle name the result is "First M. Last". */
  lemma MiddleInitial(author: string, lib: Libraries)
    requires lib.humanName(DonutBibtex.NameOrder(author)).middle != ""
    ensures var name := lib.humanName(DonutBibtex.NameOrder(author));
      FormattedAuthor(author, lib) == name.first + " " + [name.middle[0]] + ". " + name.last
  {
    var name := lib.humanName(DonutBibtex.NameOrder(author));
    assert Initialise(name.middle, " ") + " " == " " + [name.middle[0]] + ". ";
  }

  /** The four keys of the dictionary `process_entry` builds. */
  datatype Record = Record(title: string, author: seq<string>, id: string, entryType: string)

  function AuthorNames(authors: seq<string>, lib: Libraries): (r: seq<string>)
    ensures |r| == |authors|
  {
    seq(|authors|, i requires 0 <= i < |authors| => FormattedAuthor(authors[i], lib))
  }

  /** What `process_entry` returns; the fields are computed in their written order. */
  function ProcessedEntry(entry: BibEntry, lib: Libraries): Result<Record, Error>
  {
    var fields := entry.fields;
    if "title" !in fields then Err(DonutBibtex.MissingField("title"))
    else if entry.authors.None? then Err(DonutBibtex.MissingField("author"))
    else if "ID" !in fields then Err(DonutBibtex.MissingField("ID"))
    else if "ENTRYTYPE" !in fields then Err(DonutBibtex.MissingField("ENTRYTYPE"))
    else
      Ok(Record(
        DonutBibtex.FormatTitle(fields["title"], lib),
        AuthorNames(entry.authors.value, lib),
        fields["ID"],
        fields["ENTRYTYPE"]))
  }

  method ProcessEntry(entry: BibEntry, lib: Libraries) returns (r: Result<Record, Error>)
    ensures r == ProcessedEntry(entry, lib)
  {
    if "title" !in entry.fields {
      return Err(DonutBibtex.MissingField("title"));
    }
    var title := DonutBibtex.FormatTitle(entry.fields["title"], lib);
    if entry.authors.None? {
      return Err(DonutBibtex.MissingField("author"));
    }
    var author := FormatAuthors(entry.authors.value, lib);
    if "ID" !in entry.fields {
      return Err(DonutBibtex.MissingField("ID"));
    }
    if "ENTRYTYPE" !in entry.fields {
      return Err(DonutBibtex.MissingField("ENTRYTYPE"));
    }
    assert author == AuthorNames(entry.authors.value, lib);
    r := Ok(Record(title, author, entry.fields["ID"], entry.fields["ENTRYTYPE"]));
  }

  /**
   * `process_entry` succeeds exactly when the four fields it reads are
   * there; the record then has a clean title, one name per author, and the
   * identifier and entry type copied verbatim.
   */
  lemma ProcessedEntryFacts(entry: BibEntry, lib: Libraries)
    ensures ProcessedEntry(entry, lib).Ok? <==>
      "title" in entry.fields && entry.authors.Some? && "ID" in entry.fields && "ENTRYTYPE" in entry.fields
    ensures ProcessedEntry(entry, lib).Ok? ==>
      var record := ProcessedEntry(entry, lib).value;
      && '`' !in record.title && '~' !in record.title
      && |record.author| == |entry.authors.value|
      && (forall i :: 0 <= i < |record.author| ==> record.author[i] == FormattedAuthor(entry.authors.value[i], lib))
      && record.id == entry.fields["ID"] && record.entryType == entry.fields["ENTRYTYPE"]
  {
  }

  predicate HasYear(entry: BibEntry)
  {
    "year" in entry.fields
  }

  function Process(lib: Libraries): BibEntry -> Result<Record, Error>
  {
    entry => ProcessedEntry(entry, lib)
  }

  /** `get_entries` after loading: the records with a `year` field, processed in order. */
  function GetEntries(parsed: seq<BibEntry>, lib: Libraries): Result<seq<Record>, Error>
  {
    MapResult(Filter(parsed, HasYear), Process(lib))
  }

  /**
   * `get_entries` succeeds exactly when every record with a year processes;
   * its k-th record then comes from the k-th such record, and those sit at
   * increasing positions of the file, every record skipped lacking a year.
   */
  lemma GetEntriesOk(parsed: seq<BibEntry>, lib: Libraries)
    ensures GetEntries(parsed, lib).Ok? <==>
      forall e :: e in parsed && HasYear(e) ==> ProcessedEntry(e, lib).Ok?
    ensures GetEntries(parsed, lib).Ok? ==>
      var records := GetEntries(parsed, lib).value;
      var at := FilterPositions(parsed, HasYear);
      && |records| == |at|
      && (forall k :: 0 <= k < |records| ==> ProcessedEntry(parsed[at[k]], lib) == Ok(records[k]))
      && (forall k, m :: 0 <= k < m < |records| ==> at[k] < at[m])
      && (forall j :: 0 <= j < |parsed| && j !in at ==> !HasYear(parsed[j]))
  {
    var valid := Filter(parsed, HasYear);
    MapResultOk(valid, Process(lib));
    FilterMembers(parsed, HasYear);
    if forall e :: e in parsed && HasYear(e) ==> ProcessedEntry(e, lib).Ok? {
      forall i | 0 <= i < |valid| ensures Process(lib)(valid[i]).Ok? {
        assert valid[i] in valid;
      }
    }
    if GetEntries(parsed, lib).Ok? {
      forall e | e in parsed && HasYear(e) ensures ProcessedEntry(e, lib).Ok? {
        assert e in valid;
        var i :| 0 <= i < |valid| && valid[i] == e;
        assert Process(lib)(valid[i]).Ok?;
      }
    }
  }
}
