/**
 * donut/parse_bibtex.py: turning one BibTeX record, as loaded with the
 * author customisation, into the record the search index stores.
 *
 * The libraries the code calls (`titlecase`, `nameparser.HumanName`,
 * `dateutil.parser.parse`) are not modelled; they are the fields of a
 * `Libraries` value that every operation needing them receives.
 */
module DonutBibtex {
  import opened Results
  import opened Text
  import opened Order
  import opened Seqs

  /** The three parts `HumanName` returns for a name. */
  datatype Name = Name(first: string, middle: string, last: string)

  datatype Libraries = Libraries(
    titlecase: string -> string,
    humanName: string -> Name,
    /** `dateutil.parser.parse(text).year`, or `None` where it raises. */
    parseDateYear: string -> Option<nat>)

  /**
   * A record as `bibtexparser` loads it with the customisations: every
   * field is text except `author`, which the customisation splits into a
   * list (`None` when the record has no author field). `ID` and
   * `ENTRYTYPE` are fields like any other.
   */
  datatype BibEntry = BibEntry(fields: map<string, string>, authors: Option<seq<string>>)

  /** A record as loaded without customisations, kept verbatim. */
  type RawEntry = map<string, string>

  /** The exceptions that escape `process_entry`. */
  datatype Error =
    | MissingField(key: string)      // KeyError on a required field
    | UnknownCategory(code: string)  // KeyError in `category_map`
    | UnparsableDate(text: string)   // dateutil's ParserError

  /** A `(category, keyword)` pair. */
  type Keyword = Pair

  /** A `(url, title)` pair of metadata. */
  type Link = (string, string)

  datatype Record = Record(
    title: string,
    author: seq<string>,
    keywords: seq<Keyword>,
    code: seq<Link>,
    data: seq<Link>,
    videos: seq<Link>,
    summary: string,
    year: string,
    doi: string,
    url: string,
    id: string,
    entryType: string)

  /** A processed record together with the raw record it came from. */
  datatype Entry = Entry(record: Record, raw: RawEntry)

  function Get(fields: map<string, string>, key: string, default: string): string
  {
    if key in fields then fields[key] else default
  }

  // ---------------------------------------------------------------------------
  // fix_raw_latex

  const RawCommands: seq<string> := ["\\emph", "\\mbox", "\\textbf", "\\Texttt"]

  /** `field` after deleting, in turn, every command of `commands`. */
  function WithoutCommands(field: string, commands: seq<string>): string
    requires forall k :: 0 <= k < |commands| ==> |commands[k]| > 0
  {
    if commands == [] then field
    else ReplaceAll(WithoutCommands(field, commands[..|commands| - 1]), commands[|commands| - 1], "")
  }

  /** What `fix_raw_latex` returns for `field`. */
  function LatexFixed(field: string): string
  {
    ReplaceAll(ReplaceAll(WithoutCommands(field, RawCommands), "`", "'"), "~", "&nbsp;")
  }

  method FixRawLatex(field: string) returns (r: string)
    ensures r == LatexFixed(field)
  {
    r := field;
    for i := 0 to |RawCommands|
      invariant r == WithoutCommands(field, RawCommands[..i])
    {
      assert RawCommands[..i + 1][..i] == RawCommands[..i];
      r := ReplaceAll(r, RawCommands[i], "");
    }
    assert RawCommands[..|RawCommands|] == RawCommands;
    r := ReplaceAll(r, "`", "'");
    r := ReplaceAll(r, "~", "&nbsp;");
  }

  /** The fixed text has no backtick and no tilde left. */
  lemma LatexFixedClean(field: string)
    ensures '`' !in LatexFixed(field) && '~' !in LatexFixed(field)
  {
    var stripped := WithoutCommands(field, RawCommands);
    var quoted := ReplaceAll(stripped, "`", "'");
    ReplaceRemovesChar(stripped, '`', "'");
    ReplaceRemovesChar(quoted, '~', "&nbsp;");
    if '`' in LatexFixed(field) {
      ReplaceChars(quoted, "~", "&nbsp;", '`');
    }
  }

  /** Text with no markup command, backtick or tilde comes back unchanged. */
  lemma {:induction false} LatexFixedPlain(field: string)
    requires forall k :: 0 <= k < |RawCommands| ==> !Contains(field, RawCommands[k])
    requires '`' !in field && '~' !in field
    ensures LatexFixed(field) == field
  {
    forall n | 0 <= n <= |RawCommands|
      ensures WithoutCommands(field, RawCommands[..n]) == field
    {
      WithoutNoCommands(field, RawCommands[..n]);
    }
    assert RawCommands[..|RawCommands|] == RawCommands;
    ContainsChar(field, '`');
    ReplaceAbsent(field, "`", "'");
    ContainsChar(field, '~');
    ReplaceAbsent(field, "~", "&nbsp;");
  }

  lemma {:induction false} WithoutNoCommands(field: string, commands: seq<string>)
    requires forall k :: 0 <= k < |commands| ==> |commands[k]| > 0 && !Contains(field, commands[k])
    ensures WithoutCommands(field, commands) == field
  {
    if commands != [] {
      WithoutNoCommands(field, commands[..|commands| - 1]);
      ReplaceAbsent(field, commands[|commands| - 1], "");
    }
  }

  // ---------------------------------------------------------------------------
  // format_title, format_year, format_doi

  /** `format_title`: title-case the title, then fix its markup. */
  function FormatTitle(title: string, lib: Libraries): (r: string)
    ensures '`' !in r && '~' !in r
  {
    LatexFixedClean(lib.titlecase(title));
    LatexFixed(lib.titlecase(title))
  }

  /**
   * `format_year`: the `year` field verbatim when there is one, otherwise
   * the year of the parsed `date` field (the empty string when that is
   * missing too) as a decimal numeral.
   */
  function FormatYear(entry: BibEntry, lib: Libraries): (r: Result<string, Error>)
    ensures "year" in entry.fields ==> r == Ok(entry.fields["year"])
    ensures "year" !in entry.fields ==>
      var date := Get(entry.fields, "date", "");
      && (r.Err? <==> lib.parseDateYear(date).None?)
      && (r.Err? ==> r.error == UnparsableDate(date))
      && (r.Ok? ==> Canonical(r.value) && (forall i :: 0 <= i < |r.value| ==> '0' <= r.value[i] <= '9')
                    && DecimalValue(r.value) == lib.parseDateYear(date).value)
  {
    if "year" in entry.fields then Ok(entry.fields["year"])
    else
      var date := Get(entry.fields, "date", "");
      match lib.parseDateYear(date)
      case None => Err(UnparsableDate(date))
      case Some(y) => DecimalRoundTrip(y); Ok(Decimal(y))
  }

  const DxResolver: string := "https://dx.doi.org/"
  const DoiResolver: string := "https://doi.org/"

  /** `format_doi`: delete both resolver prefixes wherever they occur. */
  function FormatDoi(doi: string): string
  {
    ReplaceAll(ReplaceAll(doi, DxResolver, ""), DoiResolver, "")
  }

  /** A DOI mentioning neither resolver is left as it is. */
  lemma FormatDoiPlain(doi: string)
    requires !Contains(doi, DxResolver) && !Contains(doi, DoiResolver)
    ensures FormatDoi(doi) == doi
  {
    ReplaceAbsent(doi, DxResolver, "");
    ReplaceAbsent(doi, DoiResolver, "");
  }

  /** Either resolver URL in front of a bare DOI is stripped. */
  lemma FormatDoiStripsResolver(doi: string)
    requires !Contains(doi, DxResolver) && !Contains(doi, DoiResolver)
    ensures FormatDoi(DxResolver + doi) == doi
    ensures FormatDoi(DoiResolver + doi) == doi
  {
    ReplaceDropsLeading(DxResolver, doi);
    ReplaceAbsent(doi, DxResolver, "");
    ReplaceAbsent(doi, DoiResolver, "");
    // "https://doi.org/" holds no start of "https://dx.doi.org/": its only
    // 'h' is its first character, and there the two differ at index 9.
    var s := DoiResolver + doi;
    forall i | 0 <= i < |DoiResolver| ensures !OccursAt(s, DxResolver, i) {
      if i + |DxResolver| <= |s| {
        var k := if i == 0 then 9 else 0;
        assert s[i..i + |DxResolver|][k] == s[i + k] == DoiResolver[i + k];
        assert DoiResolver[i + k] != DxResolver[k];
      }
    }
    ReplaceSkipsPrefix(DoiResolver, doi, DxResolver, "");
    assert DoiResolver + doi == DoiResolver + doi + "";
    ReplaceDropsLeading(DoiResolver, doi);
  }

  /** The two DOI examples of the documentation. */
  lemma FormatDoiExamples()
    ensures FormatDoi("https://doi.org/10.1/x") == "10.1/x"
    ensures FormatDoi("https://dx.doi.org/10.1/x") == "10.1/x"
  {
    var doi := "10.1/x";
    assert !Contains(doi, DxResolver) && !Contains(doi, DoiResolver);
    FormatDoiStripsResolver(doi);
    assert DoiResolver + doi == "https://doi.org/10.1/x";
    assert DxResolver + doi == "https://dx.doi.org/10.1/x";
  }

  // ---------------------------------------------------------------------------
  // format_authors

  function StripAll(parts: seq<string>): (r: seq<string>)
    ensures |r| == |parts| && forall i :: 0 <= i < |parts| ==> r[i] == Strip(parts[i])
  {
    seq(|parts|, i requires 0 <= i < |parts| => Strip(parts[i]))
  }

  /** "Last, First" turned around: the comma-separated parts reversed, stripped, joined by spaces. */
  function NameOrder(author: string): string
  {
    Join(StripAll(Reverse(Split(author, ','))), ' ')
  }

  /** One formatted author: first, middle and last name separated by single spaces. */
  function FormattedAuthor(author: string, lib: Libraries): string
  {
    var name := lib.humanName(NameOrder(author));
    name.first + " " + name.middle + " " + name.last
  }

  method FormatAuthors(authors: seq<string>, lib: Libraries) returns (output: seq<string>)
    ensures |output| == |authors|
    ensures forall i :: 0 <= i < |authors| ==> output[i] == FormattedAuthor(authors[i], lib)
  {
    output := [];
    for i := 0 to |authors|
      invariant |output| == i
      invariant forall k :: 0 <= k < i ==> output[k] == FormattedAuthor(authors[k], lib)
    {
      var nameParts := Split(authors[i], ',');
      var reordered := Join(StripAll(Reverse(nameParts)), ' ');
      var name := lib.humanName(reordered);
      output := output + [name.first + " " + name.middle + " " + name.last];
    }
  }

  /** "Last, First" becomes "First Last", each part stripped. */
  lemma NameOrderTwoParts(last: string, first: string)
    requires ',' !in last && ',' !in first
    ensures NameOrder(last + "," + first) == Strip(first) + " " + Strip(last)
  {
    var author := last + "," + first;
    assert author == last + [','] + first;
    SplitAround(last, first, ',');
    SplitWithoutSeparator(last, ',');
    SplitWithoutSeparator(first, ',');
    var parts := Split(author, ',');
    assert parts == [last, first];
    var reordered := StripAll(Reverse(parts));
    assert reordered == [Strip(first), Strip(last)];
    assert Join(reordered, ' ') == Strip(first) + [' '] + Join(reordered[1..], ' ');
    assert reordered[1..] == [Strip(last)];
  }

  /** A name without a comma is only stripped. */
  lemma NameOrderOnePart(name: string)
    requires ',' !in name
    ensures NameOrder(name) == Strip(name)
  {
    SplitWithoutSeparator(name, ',');
    assert StripAll(Reverse([name])) == [Strip(name)];
  }

  /** With no middle name the first and last names are two spaces apart. */
  lemma EmptyMiddleDoubleSpace(author: string, lib: Libraries)
    requires lib.humanName(NameOrder(author)).middle == ""
    ensures var name := lib.humanName(NameOrder(author));
            FormattedAuthor(author, lib) == name.first + "  " + name.last
  {
    var name := lib.humanName(NameOrder(author));
    calc {
      FormattedAuthor(author, lib);
      name.first + " " + name.middle + " " + name.last;
      name.first + " " + "" + " " + name.last;
      { assert name.first + " " + "" == name.first + " "; }
      name.first + " " + " " + name.last;
      { assert name.first + " " + " " == name.first + "  "; }
      name.first + "  " + name.last;
    }
  }

  // ---------------------------------------------------------------------------
  // format_metadata

  /** The link one comma-separated token contributes for metadata code `id`, if any. */
  function TokenLink(token: string, id: string): Option<Link>
  {
    match SplitFirst(token, '-')
    case None => None
    case Some((head, tail)) =>
      if Strip(head) != id then None
      else
        var words := Words(Strip(tail));
        if |words| == 0 then None
        else Some((words[0], if |words| >= 2 then words[1] else ""))
  }

  function LinkOf(id: string): string -> Option<Link>
  {
    token => TokenLink(token, id)
  }

  /** The links of a token list, in order. */
  function Links(tokens: seq<string>, id: string): seq<Link>
  {
    Collect(tokens, LinkOf(id))
  }

  method FormatMetadata(keywords: string, id: string) returns (metadata: seq<Link>)
    ensures metadata == Links(Split(keywords, ','), id)
  {
    var tokens := Split(keywords, ',');
    metadata := [];
    for i := 0 to |tokens|
      invariant metadata == Links(tokens[..i], id)
    {
      assert tokens[..i + 1][..i] == tokens[..i];
      var split := SplitFirst(tokens[i], '-');
      if split.Some? {
        var category := Strip(split.value.0);
        var keyword := Strip(split.value.1);
        if category != id {
          continue;
        }
        var words := Words(keyword);
        if |words| == 0 {
          continue;
        }
        var url := words[0];
        var title := "";
        if |words| >= 2 {
          title := words[1];
        }
        metadata := metadata + [(url, title)];
      }
    }
    assert tokens[..|tokens|] == tokens;
  }

  /** A link is a non-empty url and a title, each one word or, for the title, empty. */
  lemma TokenLinkWords(token: string, id: string)
    requires TokenLink(token, id).Some?
    ensures var l := TokenLink(token, id).value; l.0 != [] && NoSpace(l.0) && NoSpace(l.1)
  {
  }

  /**
   * The url is the first word of the payload and the title the second:
   * `id + "-" + " ".join(ws)` links to `ws[0]` and `ws[1]`, or to `ws[0]`
   * and "" for a single word, and to nothing for an empty payload.
   */
  lemma TokenLinkPayload(id: string, ws: seq<string>)
    requires '-' !in id && NoSpace(id)
    requires forall k :: 0 <= k < |ws| ==> ws[k] != [] && NoSpace(ws[k])
    ensures TokenLink(id + "-" + Join(ws, ' '), id)
         == if ws == [] then None else Some((ws[0], if |ws| >= 2 then ws[1] else ""))
  {
    SplitFirstAt(id, Join(ws, ' '), '-');
    if id != [] {
      StripTrimmed(id);
    }
    JoinTrimmed(ws);
    WordsJoin(ws);
  }

  /**
   * Every link comes from a token whose code is `id`, and every such token
   * with a non-blank payload gives its link; the url is a non-empty word and
   * the title a word or empty.
   */
  lemma LinksFromTokens(tokens: seq<string>, id: string)
    ensures forall l :: l in Links(tokens, id) <==> exists k :: 0 <= k < |tokens| && TokenLink(tokens[k], id) == Some(l)
    ensures forall l :: l in Links(tokens, id) ==> l.0 != [] && NoSpace(l.0) && NoSpace(l.1)
  {
    forall l ensures l in Links(tokens, id) <==> exists k :: 0 <= k < |tokens| && TokenLink(tokens[k], id) == Some(l) {
      CollectMember(tokens, LinkOf(id), l);
      if l in Links(tokens, id) {
        var k :| 0 <= k < |tokens| && LinkOf(id)(tokens[k]) == Some(l);
        TokenLinkWords(tokens[k], id);
      }
    }
  }

  /** Links keep the order of their tokens. */
  lemma LinksAppend(a: seq<string>, b: seq<string>, id: string)
    ensures Links(a + b, id) == Links(a, id) + Links(b, id)
  {
    CollectAppend(a, b, LinkOf(id));
  }

  // ---------------------------------------------------------------------------
  // format_keywords

  const CategoryMap: map<string, string> := map["1" := "applications", "2" := "tools", "3" := "data"]
  const Flavours: seq<string> := ["confirm", "innovate"]

  /** The pairs the loop over `parts[:-(index + 1)]` adds for `term`: one per proper segment prefix. */
  function Ancestors(category: string, term: string): set<Keyword>
  {
    var parts := Split(term, ':');
    set k | 1 <= k < |parts| :: (category, Join(parts[..k], ':'))
  }

  /** What a token `code-term` adds: nothing for a letter code, the KeyError for an unknown one. */
  function CodedKeywords(code: string, term: string): Result<set<Keyword>, Error>
  {
    if IsAlpha(code) then Ok({})
    else if code !in CategoryMap then Err(UnknownCategory(code))
    else Ok(Ancestors(CategoryMap[code], term) + {(CategoryMap[code], term)})
  }

  /** What one comma-separated token adds to the keyword set, or the KeyError it raises. */
  function TokenKeywords(token: string): Result<set<Keyword>, Error>
  {
    match SplitFirst(token, '-')
    case Some((head, tail)) => CodedKeywords(Strip(head), Strip(tail))
    case None =>
      var flavour := Strip(token);
      if flavour != "" && Lower(flavour) in Flavours then Ok({("flavour", flavour)}) else Ok({})
  }

  /**
   * The union of the keywords `keywordsOf` gives each token, taken left to
   * right; the first token that raises decides the error.
   */
  function KeywordSet(tokens: seq<string>, keywordsOf: string -> Result<set<Keyword>, Error>): Result<set<Keyword>, Error>
  {
    if tokens == [] then Ok({})
    else
      var init := KeywordSet(tokens[..|tokens| - 1], keywordsOf);
      if init.Err? then init
      else
        var last := keywordsOf(tokens[|tokens| - 1]);
        if last.Err? then last else Ok(init.value + last.value)
  }

  /** What `format_keywords` returns: the sorted keyword set of the comma-separated tokens. */
  function FormattedKeywords(keywords: string): Result<seq<Keyword>, Error>
  {
    match KeywordSet(Split(keywords, ','), TokenKeywords)
    case Ok(found) => Ok(SortedPairs(found))
    case Err(e) => Err(e)
  }

  /** Once a prefix of the tokens raises, the whole list raises the same error. */
  lemma {:induction false} KeywordSetErrorStays(tokens: seq<string>, keywordsOf: string -> Result<set<Keyword>, Error>, n: nat)
    requires n <= |tokens| && KeywordSet(tokens[..n], keywordsOf).Err?
    ensures KeywordSet(tokens, keywordsOf) == KeywordSet(tokens[..n], keywordsOf)
    decreases |tokens| - n
  {
    if n < |tokens| {
      assert tokens[..n + 1][..n] == tokens[..n];
      KeywordSetErrorStays(tokens, keywordsOf, n + 1);
    } else {
      assert tokens[..n] == tokens;
    }
  }

  lemma KeywordSetStep(tokens: seq<string>, keywordsOf: string -> Result<set<Keyword>, Error>, i: nat)
    requires i < |tokens| && KeywordSet(tokens[..i], keywordsOf).Ok? && keywordsOf(tokens[i]).Ok?
    ensures KeywordSet(tokens[..i + 1], keywordsOf) == Ok(KeywordSet(tokens[..i], keywordsOf).value + keywordsOf(tokens[i]).value)
  {
    assert tokens[..i + 1][..i] == tokens[..i];
  }

  /** The branch of the token loop of `format_keywords` for a token `code-term`. */
  method AddCodedKeywords(code: string, term: string, found: set<Keyword>) returns (r: Result<set<Keyword>, Error>)
    ensures CodedKeywords(code, term).Err? ==> r == CodedKeywords(code, term)
    ensures CodedKeywords(code, term).Ok? ==> r == Ok(found + CodedKeywords(code, term).value)
  {
    if IsAlpha(code) {
      assert found + {} == found;
      return Ok(found);
    }
    var added := found;
    if ':' in term {
      var parts := Split(term, ':');
      for index := 0 to |parts| - 1
        invariant index > 0 ==> code in CategoryMap
        invariant added == found + set k | |parts| - index <= k < |parts| :: (CategoryMap[code], Join(parts[..k], ':'))
      {
        var subcategory := Join(parts[..|parts| - (index + 1)], ':');
        if code !in CategoryMap {
          return Err(UnknownCategory(code));
        }
        added := added + {(CategoryMap[code], subcategory)};
      }
      if code in CategoryMap {
        assert added == found + Ancestors(CategoryMap[code], term);
      }
    } else {
      SplitWithoutSeparator(term, ':');
    }
    if code !in CategoryMap {
      return Err(UnknownCategory(code));
    }
    assert added == found + Ancestors(CategoryMap[code], term);
    added := added + {(CategoryMap[code], term)};
    assert CodedKeywords(code, term) == Ok(Ancestors(CategoryMap[code], term) + {(CategoryMap[code], term)});
    assert added == found + CodedKeywords(code, term).value;
    r := Ok(added);
  }

  /** The body of the token loop of `format_keywords`: add one token's keywords to `found`. */
  method AddTokenKeywords(token: string, found: set<Keyword>) returns (r: Result<set<Keyword>, Error>)
    ensures TokenKeywords(token).Err? ==> r == TokenKeywords(token)
    ensures TokenKeywords(token).Ok? ==> r == Ok(found + TokenKeywords(token).value)
  {
    var split := SplitFirst(token, '-');
    if split.Some? {
      r := AddCodedKeywords(Strip(split.value.0), Strip(split.value.1), found);
    } else {
      var flavour := Strip(token);
      if flavour != "" && Lower(flavour) in Flavours {
        return Ok(found + {("flavour", flavour)});
      }
      assert found + {} == found;
      return Ok(found);
    }
  }

  method FormatKeywords(keywords: string) returns (r: Result<seq<Keyword>, Error>)
    ensures r == FormattedKeywords(keywords)
  {
    var tokens := Split(keywords, ',');
    var found: set<Keyword> := {};
    for i := 0 to |tokens|
      invariant KeywordSet(tokens[..i], TokenKeywords) == Ok(found)
    {
      var step := AddTokenKeywords(tokens[i], found);
      if step.Err? {
        assert tokens[..i + 1][..i] == tokens[..i];
        KeywordSetErrorStays(tokens, TokenKeywords, i + 1);
        return Err(step.error);
      }
      KeywordSetStep(tokens, TokenKeywords, i);
      found := step.value;
    }
    assert tokens[..|tokens|] == tokens;
    r := Ok(SortedPairs(found));
  }

  /** The ancestors of a term are its prefixes that end just before a `:`. */
  lemma AncestorsArePrefixes(category: string, term: string)
    ensures Ancestors(category, term) == set j | 0 <= j < |term| && term[j] == ':' :: (category, term[..j])
  {
    SeparatorPrefixes(term, ':');
    var parts := Split(term, ':');
    var right := set j | 0 <= j < |term| && term[j] == ':' :: (category, term[..j]);
    var joined := set k | 1 <= k < |parts| :: Join(parts[..k], ':');
    var cut := set j | 0 <= j < |term| && term[j] == ':' :: term[..j];
    assert joined == cut;
    forall p | p in Ancestors(category, term) ensures p in right {
      var k :| 1 <= k < |parts| && p == (category, Join(parts[..k], ':'));
      assert Join(parts[..k], ':') in joined;
      var j :| 0 <= j < |term| && term[j] == ':' && Join(parts[..k], ':') == term[..j];
      assert p == (category, term[..j]);
    }
    forall p | p in right ensures p in Ancestors(category, term) {
      var j :| 0 <= j < |term| && term[j] == ':' && p == (category, term[..j]);
      assert term[..j] in cut;
      var k :| 1 <= k < |parts| && Join(parts[..k], ':') == term[..j];
      assert p == (category, Join(parts[..k], ':'));
    }
  }

  /** The term and each prefix of it that ends just before a `:`, under `category`. */
  function Cuts(category: string, term: string): set<Keyword>
  {
    set j | 0 <= j <= |term| && (j == |term| || term[j] == ':') :: (category, term[..j])
  }

  /**
   * A token `code-term` with a known numeric code yields exactly the term and
   * each prefix of it cut at a `:`, all under the code's category.
   */
  lemma CodedKeywordsAre(code: string, term: string)
    requires code in CategoryMap
    ensures CodedKeywords(code, term) == Ok(Cuts(CategoryMap[code], term))
  {
    assert !IsAlpha(code) by {
      assert code == "1" || code == "2" || code == "3";
      assert !IsAsciiLetter(code[0]);
    }
    var category := CategoryMap[code];
    var want := Cuts(category, term);
    var prefixes := set j | 0 <= j < |term| && term[j] == ':' :: (category, term[..j]);
    AncestorsArePrefixes(category, term);
    assert CodedKeywords(code, term) == Ok(prefixes + {(category, term)});
    forall p | p in want ensures p in prefixes + {(category, term)} {
      var j :| 0 <= j <= |term| && (j == |term| || term[j] == ':') && p == (category, term[..j]);
      if j < |term| {
        assert p in prefixes;
      } else {
        assert term[..j] == term;
      }
    }
    forall p | p in prefixes + {(category, term)} ensures p in want {
      if p == (category, term) {
        assert term[..|term|] == term;
        assert (category, term[..|term|]) in want;
      } else {
        var j :| 0 <= j < |term| && term[j] == ':' && p == (category, term[..j]);
        assert p in want;
      }
    }
    assert want == prefixes + {(category, term)};
  }

  /** The split-at-first-hyphen example from the code's comments: `foo:bar:baz` also yields `foo:bar` and `foo`. */
  lemma CodedKeywordsExample(term: string)
    requires term == "foo:bar:baz"
    ensures CodedKeywords("2", term) == Ok({("tools", "foo"), ("tools", "foo:bar"), ("tools", "foo:bar:baz")})
  {
    CodedKeywordsAre("2", term);
    ExampleFound(term);
  }

  lemma ExampleFound(term: string)
    requires term == "foo:bar:baz"
    ensures Cuts("tools", term) == {("tools", "foo"), ("tools", "foo:bar"), ("tools", "foo:bar:baz")}
  {
    var found := Cuts("tools", term);
    ExampleCuts(term);
    assert term[..3] == "foo" && term[..7] == "foo:bar" && term[..11] == term;
    assert ("tools", term[..3]) in found && ("tools", term[..7]) in found && ("tools", term[..11]) in found;
  }

  /** The only places "foo:bar:baz" is cut: its two colons and its end. */
  lemma ExampleCuts(term: string)
    requires term == "foo:bar:baz"
    ensures forall j :: 0 <= j <= |term| && (j == |term| || term[j] == ':') ==> j == 3 || j == 7 || j == 11
  {
  }

  /** A token is split at its first hyphen only: the term keeps any later hyphens. */
  lemma TokenKeywordsFirstHyphen(code: string, term: string)
    requires '-' !in code
    ensures TokenKeywords(code + "-" + term) == CodedKeywords(Strip(code), Strip(term))
  {
    SplitFirstAt(code, term, '-');
    assert code + "-" + term == code + ['-'] + term;
  }

  /** A token whose code is alphabetic, such as a metadata link, never becomes a keyword. */
  lemma MetadataIsNoKeyword(token: string)
    requires '-' in token && IsAlpha(Strip(SplitFirst(token, '-').value.0))
    ensures TokenKeywords(token) == Ok({})
  {
  }

  /** Every hierarchical keyword comes with all its ancestors: cutting a term at a `:` gives a keyword too. */
  ghost predicate AncestorClosed(found: set<Keyword>)
  {
    forall p, j :: p in found && 0 <= j < |p.1| && p.1[j] == ':' ==> (p.0, p.1[..j]) in found
  }

  lemma CodedKeywordsClosed(code: string, term: string)
    requires CodedKeywords(code, term).Ok?
    ensures AncestorClosed(CodedKeywords(code, term).value)
  {
    if code in CategoryMap {
      CodedKeywordsAre(code, term);
      var found := CodedKeywords(code, term).value;
      forall p, j | p in found && 0 <= j < |p.1| && p.1[j] == ':' ensures (p.0, p.1[..j]) in found {
        var i :| 0 <= i <= |term| && (i == |term| || term[i] == ':') && p == (CategoryMap[code], term[..i]);
        assert p.1[..j] == term[..j];
      }
    }
  }

  /** The accepted flavours contain no `:`, so a flavour keyword has no ancestors. */
  lemma FlavourPlain(flavour: string)
    requires Lower(flavour) in Flavours
    ensures ':' !in flavour
  {
    var lowered := Lower(flavour);
    assert lowered == "confirm" || lowered == "innovate";
    assert forall i :: 0 <= i < |lowered| ==> lowered[i] != ':';
    forall j | 0 <= j < |flavour| ensures flavour[j] != ':' {
      assert lowered[j] == LowerChar(flavour[j]);
    }
  }

  lemma TokenKeywordsClosed(token: string)
    requires TokenKeywords(token).Ok?
    ensures AncestorClosed(TokenKeywords(token).value)
  {
    match SplitFirst(token, '-')
    case Some((head, tail)) =>
      CodedKeywordsClosed(Strip(head), Strip(tail));
    case None =>
      var flavour := Strip(token);
      if flavour != "" && Lower(flavour) in Flavours {
        FlavourPlain(flavour);
      }
  }

  lemma {:induction false} KeywordSetClosed(tokens: seq<string>, keywordsOf: string -> Result<set<Keyword>, Error>)
    requires forall t :: keywordsOf(t).Ok? ==> AncestorClosed(keywordsOf(t).value)
    requires KeywordSet(tokens, keywordsOf).Ok?
    ensures AncestorClosed(KeywordSet(tokens, keywordsOf).value)
  {
    if tokens != [] {
      KeywordSetClosed(tokens[..|tokens| - 1], keywordsOf);
    }
  }

  /** Every keyword `format_keywords` returns comes with each of its ancestors in the same category. */
  lemma FormattedKeywordsClosed(keywords: string)
    requires FormattedKeywords(keywords).Ok?
    ensures var r := FormattedKeywords(keywords).value;
      forall i, j :: 0 <= i < |r| && 0 <= j < |r[i].1| && r[i].1[j] == ':' ==> (r[i].0, r[i].1[..j]) in r
  {
    forall t | TokenKeywords(t).Ok? ensures AncestorClosed(TokenKeywords(t).value) {
      TokenKeywordsClosed(t);
    }
    KeywordSetClosed(Split(keywords, ','), TokenKeywords);
  }

  /** The keyword set succeeds exactly when every token does. */
  lemma {:induction false} KeywordSetOk(tokens: seq<string>, keywordsOf: string -> Result<set<Keyword>, Error>)
    ensures KeywordSet(tokens, keywordsOf).Ok? <==> forall i :: 0 <= i < |tokens| ==> keywordsOf(tokens[i]).Ok?
  {
    if tokens != [] {
      var init := tokens[..|tokens| - 1];
      KeywordSetOk(init, keywordsOf);
      assert forall i :: 0 <= i < |init| ==> init[i] == tokens[i];
    }
  }

  /** A successful keyword set is the union of the tokens' keywords. */
  lemma {:induction false} KeywordSetMembers(tokens: seq<string>, keywordsOf: string -> Result<set<Keyword>, Error>, p: Keyword)
    requires KeywordSet(tokens, keywordsOf).Ok?
    ensures p in KeywordSet(tokens, keywordsOf).value <==>
      exists i :: 0 <= i < |tokens| && keywordsOf(tokens[i]).Ok? && p in keywordsOf(tokens[i]).value
  {
    if tokens != [] {
      var init := tokens[..|tokens| - 1];
      KeywordSetMembers(init, keywordsOf, p);
      if p in KeywordSet(init, keywordsOf).value {
        var i :| 0 <= i < |init| && keywordsOf(init[i]).Ok? && p in keywordsOf(init[i]).value;
        assert init[i] == tokens[i];
      }
      if exists i :: 0 <= i < |tokens| && keywordsOf(tokens[i]).Ok? && p in keywordsOf(tokens[i]).value {
        var i :| 0 <= i < |tokens| && keywordsOf(tokens[i]).Ok? && p in keywordsOf(tokens[i]).value;
        if i < |init| {
          assert init[i] == tokens[i];
        }
      }
    }
  }

  /** When some token raises, the first such token decides the error. */
  lemma KeywordSetFirstError(tokens: seq<string>, keywordsOf: string -> Result<set<Keyword>, Error>, i: nat)
    requires i < |tokens| && keywordsOf(tokens[i]).Err?
    requires forall j :: 0 <= j < i ==> keywordsOf(tokens[j]).Ok?
    ensures KeywordSet(tokens, keywordsOf) == keywordsOf(tokens[i])
  {
    KeywordSetOk(tokens[..i], keywordsOf);
    assert tokens[..i + 1][..i] == tokens[..i];
    KeywordSetErrorStays(tokens, keywordsOf, i + 1);
  }

  /**
   * A token without a hyphen never raises; it gives the pair `("flavour", t)`
   * for its stripped text `t`, in its own case, when `t` is non-empty and
   * lower-cases to an accepted flavour, and nothing otherwise.
   */
  lemma BareTokenKeywords(token: string, p: Keyword)
    requires '-' !in token
    ensures TokenKeywords(token).Ok?
    ensures p in TokenKeywords(token).value <==>
      var t := Strip(token);
      t != "" && (Lower(t) == "confirm" || Lower(t) == "innovate") && p == ("flavour", t)
  {
  }

  /** When tokens raise, the first of them decides the error. */
  lemma FormattedKeywordsFirstError(keywords: string, i: nat)
    requires i < |Split(keywords, ',')| && TokenKeywords(Split(keywords, ',')[i]).Err?
    requires forall j :: 0 <= j < i ==> TokenKeywords(Split(keywords, ',')[j]).Ok?
    ensures FormattedKeywords(keywords) == Err(TokenKeywords(Split(keywords, ',')[i]).error)
  {
    KeywordSetFirstError(Split(keywords, ','), TokenKeywords, i);
  }

  // ---------------------------------------------------------------------------
  // process_entry

  /** What `format_authors` returns for the author list. */
  function AuthorNames(authors: seq<string>, lib: Libraries): (r: seq<string>)
    ensures |r| == |authors|
  {
    seq(|authors|, i requires 0 <= i < |authors| => FormattedAuthor(authors[i], lib))
  }

  /**
   * What `process_entry` returns: the fields of the dictionary literal are
   * computed in their written order, so the first one that raises decides
   * the exception.
   */
  function ProcessedEntry(entry: BibEntry, lib: Libraries): Result<Record, Error>
  {
    var fields := entry.fields;
    var keywords := Get(fields, "keywords", "");
    if "title" !in fields then Err(MissingField("title"))
    else if entry.authors.None? then Err(MissingField("author"))
    else
      match FormattedKeywords(keywords)
      case Err(e) => Err(e)
      case Ok(found) =>
        match FormatYear(entry, lib)
        case Err(e) => Err(e)
        case Ok(year) =>
          if "ID" !in fields then Err(MissingField("ID"))
          else if "ENTRYTYPE" !in fields then Err(MissingField("ENTRYTYPE"))
          else
            var tokens := Split(keywords, ',');
            Ok(Record(
              title := FormatTitle(fields["title"], lib),
              author := AuthorNames(entry.authors.value, lib),
              keywords := found,
              code := Links(tokens, "C"),
              data := Links(tokens, "D"),
              videos := Links(tokens, "V"),
              summary := Get(fields, "abstract", ""),
              year := year,
              doi := FormatDoi(Get(fields, "doi", "")),
              url := Get(fields, "url", ""),
              id := fields["ID"],
              entryType := fields["ENTRYTYPE"]))
  }

  method ProcessEntry(entry: BibEntry, lib: Libraries) returns (r: Result<Record, Error>)
    ensures r == ProcessedEntry(entry, lib)
  {
    if "title" !in entry.fields {
      return Err(MissingField("title"));
    }
    var title := FormatTitle(entry.fields["title"], lib);
    if entry.authors.None? {
      return Err(MissingField("author"));
    }
    var author := FormatAuthors(entry.authors.value, lib);
    var keywordText := Get(entry.fields, "keywords", "");
    var keywords := FormatKeywords(keywordText);
    if keywords.Err? {
      return Err(keywords.error);
    }
    var code := FormatMetadata(keywordText, "C");
    var data := FormatMetadata(keywordText, "D");
    var videos := FormatMetadata(keywordText, "V");
    var summary := Get(entry.fields, "abstract", "");
    var year := FormatYear(entry, lib);
    if year.Err? {
      return Err(year.error);
    }
    var doi := FormatDoi(Get(entry.fields, "doi", ""));
    var url := Get(entry.fields, "url", "");
    if "ID" !in entry.fields {
      return Err(MissingField("ID"));
    }
    if "ENTRYTYPE" !in entry.fields {
      return Err(MissingField("ENTRYTYPE"));
    }
    assert author == AuthorNames(entry.authors.value, lib);
    r := Ok(Record(title, author, keywords.value, code, data, videos, summary, year.value, doi, url,
                   entry.fields["ID"], entry.fields["ENTRYTYPE"]));
  }

  /**
   * When `process_entry` succeeds and when it raises, and what the record
   * it builds then guarantees: a title free of backticks and tildes, one
   * name per author, keywords sorted without duplicates and closed under
   * ancestors, the identifier and entry type copied over.
   */
  lemma ProcessedEntryFacts(entry: BibEntry, lib: Libraries)
    ensures var keywords := Get(entry.fields, "keywords", "");
      ProcessedEntry(entry, lib).Ok? <==>
        && "title" in entry.fields && entry.authors.Some?
        && FormattedKeywords(keywords).Ok? && FormatYear(entry, lib).Ok?
        && "ID" in entry.fields && "ENTRYTYPE" in entry.fields
    ensures "title" !in entry.fields ==> ProcessedEntry(entry, lib) == Err(MissingField("title"))
    ensures ProcessedEntry(entry, lib).Ok? ==>
      var record := ProcessedEntry(entry, lib).value;
      && '`' !in record.title && '~' !in record.title
      && |record.author| == |entry.authors.value|
      && StrictlySorted(record.keywords)
      && (forall i, j :: 0 <= i < |record.keywords| && 0 <= j < |record.keywords[i].1| && record.keywords[i].1[j] == ':'
            ==> (record.keywords[i].0, record.keywords[i].1[..j]) in record.keywords)
      && (forall l :: l in record.code ==> l.0 != [] && NoSpace(l.0) && NoSpace(l.1))
      && record.id == entry.fields["ID"] && record.entryType == entry.fields["ENTRYTYPE"]
  {
    var keywords := Get(entry.fields, "keywords", "");
    if ProcessedEntry(entry, lib).Ok? {
      FormattedKeywordsClosed(keywords);
      LinksFromTokens(Split(keywords, ','), "C");
    }
  }

  // ---------------------------------------------------------------------------
  // get_entries

  /** `_get_valid_entries`: a record with a year or a date. */
  predicate Dated(fields: map<string, string>)
  {
    "year" in fields || "date" in fields
  }

  predicate IsDatedEntry(entry: BibEntry)
  {
    Dated(entry.fields)
  }

  /** `process_entry` with the libraries fixed, as the list comprehension applies it. */
  function Process(lib: Libraries): BibEntry -> Result<Record, Error>
  {
    entry => ProcessedEntry(entry, lib)
  }

  /**
   * `get_entries` on the two loads of one file: `parsed` with the
   * customisations, `raw` without. The dated records of each are kept,
   * the customised ones processed, and both paired up as `zip` does.
   */
  function GetEntries(parsed: seq<BibEntry>, raw: seq<RawEntry>, lib: Libraries): Result<seq<Entry>, Error>
  {
    var rawDated := Filter(raw, Dated);
    match MapResult(Filter(parsed, IsDatedEntry), Process(lib))
    case Err(e) => Err(e)
    case Ok(records) =>
      Ok(seq(Min(|records|, |rawDated|), i requires 0 <= i < Min(|records|, |rawDated|) => Entry(records[i], rawDated[i])))
  }

  /**
   * `get_entries` succeeds exactly when every dated record processes; then
   * the i-th entry pairs the i-th dated record, processed, with the i-th
   * dated raw record, and every raw record it keeps has a year or a date.
   */
  lemma GetEntriesOk(parsed: seq<BibEntry>, raw: seq<RawEntry>, lib: Libraries)
    ensures GetEntries(parsed, raw, lib).Ok? <==>
      forall e :: e in parsed && IsDatedEntry(e) ==> ProcessedEntry(e, lib).Ok?
    ensures GetEntries(parsed, raw, lib).Ok? ==>
      var valid := Filter(parsed, IsDatedEntry);
      var rawDated := Filter(raw, Dated);
      var entries := GetEntries(parsed, raw, lib).value;
      && |entries| == Min(|valid|, |rawDated|)
      && (forall i :: 0 <= i < |entries| ==>
            ProcessedEntry(valid[i], lib) == Ok(entries[i].record) && entries[i].raw == rawDated[i])
      && (forall i :: 0 <= i < |entries| ==> Dated(entries[i].raw))
  {
    var valid := Filter(parsed, IsDatedEntry);
    MapResultOk(valid, Process(lib));
    DatedProcess(parsed, lib);
    RawDated(raw);
  }

  /** Every dated record processes exactly when every element of the filtered list does. */
  lemma DatedProcess(parsed: seq<BibEntry>, lib: Libraries)
    ensures (forall e :: e in parsed && IsDatedEntry(e) ==> ProcessedEntry(e, lib).Ok?) <==>
      (forall i :: 0 <= i < |Filter(parsed, IsDatedEntry)| ==> Process(lib)(Filter(parsed, IsDatedEntry)[i]).Ok?)
  {
    var valid := Filter(parsed, IsDatedEntry);
    FilterMembers(parsed, IsDatedEntry);
    if forall e :: e in parsed && IsDatedEntry(e) ==> ProcessedEntry(e, lib).Ok? {
      forall i | 0 <= i < |valid| ensures Process(lib)(valid[i]).Ok? {
        assert valid[i] in valid;
      }
    }
    if forall i :: 0 <= i < |valid| ==> Process(lib)(valid[i]).Ok? {
      forall e | e in parsed && IsDatedEntry(e) ensures ProcessedEntry(e, lib).Ok? {
        assert e in valid;
        var i :| 0 <= i < |valid| && valid[i] == e;
        assert Process(lib)(valid[i]).Ok?;
      }
    }
  }

  lemma RawDated(raw: seq<RawEntry>)
    ensures forall i :: 0 <= i < |Filter(raw, Dated)| ==> Dated(Filter(raw, Dated)[i])
  {
    var rawDated := Filter(raw, Dated);
    FilterMembers(raw, Dated);
    forall i | 0 <= i < |rawDated| ensures Dated(rawDated[i]) {
      assert rawDated[i] in rawDated;
    }
  }

  /** When dated records raise, the first of them decides the exception. */
  lemma GetEntriesFirstError(parsed: seq<BibEntry>, raw: seq<RawEntry>, lib: Libraries, i: nat)
    requires i < |Filter(parsed, IsDatedEntry)|
    requires ProcessedEntry(Filter(parsed, IsDatedEntry)[i], lib).Err?
    requires forall j :: 0 <= j < i ==> ProcessedEntry(Filter(parsed, IsDatedEntry)[j], lib).Ok?
    ensures GetEntries(parsed, raw, lib) == Err(ProcessedEntry(Filter(parsed, IsDatedEntry)[i], lib).error)
  {
    MapResultFirstError(Filter(parsed, IsDatedEntry), Process(lib), i);
  }

  /**
   * When both loads see the same records and the customisation keeps every
   * `year` and `date` field, `zip` drops nothing: there is one entry per
   * dated record.
   */
  lemma GetEntriesNothingDropped(parsed: seq<BibEntry>, raw: seq<RawEntry>, lib: Libraries)
    requires |parsed| == |raw|
    requires forall i :: 0 <= i < |parsed| ==> IsDatedEntry(parsed[i]) == Dated(raw[i])
    requires GetEntries(parsed, raw, lib).Ok?
    ensures |GetEntries(parsed, raw, lib).value| == |Filter(parsed, IsDatedEntry)|
  {
    FilterSameLength(parsed, IsDatedEntry, raw, Dated);
    MapResultOk(Filter(parsed, IsDatedEntry), Process(lib));
  }
}
