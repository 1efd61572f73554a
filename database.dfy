/**
 * donut/database.py: the search index. The Xapian store is modelled by
 * what the code relies on: documents numbered from 1 with no gaps, each
 * holding the entry it was indexed from, and the boolean identifier terms
 * `"Q" + id` that `replace_document` uses to find a document again. Text
 * indexing, stemming and query parsing are left to Xapian; the documents
 * a query matches come in as a sequence of document numbers.
 */
module Index {
  import opened Results
  import opened Text
  import opened Order
  import opened Seqs
  import DonutBibtex

  type Entry = DonutBibtex.Entry
  type Keyword = DonutBibtex.Keyword

  /** What `_build_match` returns: the document number and the stored entry. */
  datatype Match = Match(id: nat, document: Entry)

  /** The identifier term of an entry. */
  function IdTerm(entry: Entry): string
  {
    "Q" + entry.record.id
  }

  /** For each identifier term, the last entry that carries it. */
  function LatestById(entries: seq<Entry>): (latest: map<string, Entry>)
  {
    if entries == [] then map[]
    else
      var last := entries[|entries| - 1];
      LatestById(entries[..|entries| - 1])[IdTerm(last) := last]
  }

  /** `LatestById` has a key for exactly the identifiers among the entries. */
  lemma {:induction false} LatestByIdKeys(entries: seq<Entry>, t: string)
    ensures t in LatestById(entries) <==> exists k :: 0 <= k < |entries| && IdTerm(entries[k]) == t
  {
    if entries != [] {
      var init := entries[..|entries| - 1];
      LatestByIdKeys(init, t);
      if exists k :: 0 <= k < |init| && IdTerm(init[k]) == t {
        var k :| 0 <= k < |init| && IdTerm(init[k]) == t;
        assert entries[k] == init[k];
      }
      if exists k :: 0 <= k < |entries| && IdTerm(entries[k]) == t {
        var k :| 0 <= k < |entries| && IdTerm(entries[k]) == t;
        if k < |init| {
          assert entries[k] == init[k];
        }
      }
    }
  }

  /** One more entry overrides the entry kept for its identifier. */
  lemma LatestByIdNext(entries: seq<Entry>, i: nat)
    requires i < |entries|
    ensures LatestById(entries[..i + 1]) == LatestById(entries[..i])[IdTerm(entries[i]) := entries[i]]
    ensures LatestById(entries[..i + 1]).Keys == LatestById(entries[..i]).Keys + {IdTerm(entries[i])}
  {
    assert entries[..i + 1][..i] == entries[..i];
  }

  /** The entry `LatestById` keeps for an identifier is the last entry carrying it. */
  lemma {:induction false} LatestByIdLast(entries: seq<Entry>, k: nat)
    requires k < |entries|
    requires forall l :: k < l < |entries| ==> IdTerm(entries[l]) != IdTerm(entries[k])
    ensures IdTerm(entries[k]) in LatestById(entries)
    ensures LatestById(entries)[IdTerm(entries[k])] == entries[k]
  {
    var n := |entries| - 1;
    if k < n {
      var init := entries[..n];
      assert init[k] == entries[k];
      forall l | k < l < |init| ensures IdTerm(init[l]) != IdTerm(init[k]) {
        assert init[l] == entries[l];
      }
      LatestByIdLast(init, k);
    }
  }

  /** The document numbers are 1 to `last`, without gaps. */
  ghost predicate Numbered(docs: map<nat, Entry>, last: nat)
  {
    forall d :: d in docs <==> 1 <= d <= last
  }

  /**
   * Each identifier term leads to a document that carries that term, and
   * there are exactly as many terms as documents: no document without a
   * term, none reached by two (`EveryDocumentFound`).
   */
  ghost predicate TermsMatch(docs: map<nat, Entry>, idTerms: map<string, nat>)
  {
    && (forall t :: t in idTerms ==> idTerms[t] in docs && IdTerm(docs[idTerms[t]]) == t)
    && |idTerms| == |docs|
  }

  /** Which entry each identifier term finds. */
  ghost function StoredOf(docs: map<nat, Entry>, idTerms: map<string, nat>): map<string, Entry>
    requires TermsMatch(docs, idTerms)
  {
    map t | t in idTerms :: docs[idTerms[t]]
  }

  /** New contents for the document that holds the entry's term keep the terms matching. */
  lemma ReplaceMatches(docs: map<nat, Entry>, idTerms: map<string, nat>, last: nat, doc: Entry)
    requires Numbered(docs, last) && TermsMatch(docs, idTerms) && IdTerm(doc) in idTerms
    ensures Numbered(docs[idTerms[IdTerm(doc)] := doc], last)
    ensures TermsMatch(docs[idTerms[IdTerm(doc)] := doc], idTerms)
    ensures StoredOf(docs[idTerms[IdTerm(doc)] := doc], idTerms) == StoredOf(docs, idTerms)[IdTerm(doc) := doc]
  {
    var n := idTerms[IdTerm(doc)];
    var updated := docs[n := doc];
    assert updated.Keys == docs.Keys;
    forall t | t in idTerms ensures idTerms[t] in updated && IdTerm(updated[idTerms[t]]) == t {
      if idTerms[t] == n {
        assert IdTerm(docs[n]) == t && IdTerm(docs[n]) == IdTerm(doc);
      }
    }
  }

  /** A new document one past the last, under the entry's new term, keeps the store consistent. */
  lemma AddMatches(docs: map<nat, Entry>, idTerms: map<string, nat>, last: nat, doc: Entry)
    requires Numbered(docs, last) && TermsMatch(docs, idTerms) && IdTerm(doc) !in idTerms
    ensures Numbered(docs[last + 1 := doc], last + 1)
    ensures TermsMatch(docs[last + 1 := doc], idTerms[IdTerm(doc) := last + 1])
    ensures StoredOf(docs[last + 1 := doc], idTerms[IdTerm(doc) := last + 1]) == StoredOf(docs, idTerms)[IdTerm(doc) := doc]
  {
    assert last + 1 !in docs;
  }

  /** The numbers of the identifier terms in `terms`. */
  ghost function NumbersOf(idTerms: map<string, nat>, terms: set<string>): set<nat>
    requires terms <= idTerms.Keys
  {
    set t | t in terms :: idTerms[t]
  }

  /** Terms on distinct documents have as many numbers as terms. */
  lemma {:induction false} NumbersOfSize(idTerms: map<string, nat>, terms: set<string>)
    requires terms <= idTerms.Keys
    requires forall t, u :: t in terms && u in terms && idTerms[t] == idTerms[u] ==> t == u
    ensures |NumbersOf(idTerms, terms)| == |terms|
    decreases terms
  {
    if terms != {} {
      var t :| t in terms;
      var rest := terms - {t};
      NumbersOfSize(idTerms, rest);
      assert NumbersOf(idTerms, terms) == NumbersOf(idTerms, rest) + {idTerms[t]};
    }
  }

  /**
   * In a consistent store every document is found again through the
   * identifier term of its own entry: the term index is one-to-one.
   */
  lemma EveryDocumentFound(docs: map<nat, Entry>, idTerms: map<string, nat>, d: nat)
    requires TermsMatch(docs, idTerms) && d in docs
    ensures IdTerm(docs[d]) in idTerms && idTerms[IdTerm(docs[d])] == d
  {
    var numbers := NumbersOf(idTerms, idTerms.Keys);
    NumbersOfSize(idTerms, idTerms.Keys);
    if d !in numbers {
      SubsetCardinality(numbers, docs.Keys - {d});
    }
    assert d in numbers;
    var t :| t in idTerms && idTerms[t] == d;
  }

  /** The upsert on the identifier term keeps one document per record identifier. */
  lemma OneDocumentPerId(docs: map<nat, Entry>, idTerms: map<string, nat>, d: nat, e: nat)
    requires TermsMatch(docs, idTerms) && d in docs && e in docs
    ensures docs[d].record.id == docs[e].record.id <==> d == e
  {
    EveryDocumentFound(docs, idTerms, d);
    EveryDocumentFound(docs, idTerms, e);
  }

  class Database {
    /** The stored documents by document number. */
    var docs: map<nat, Entry>
    /** Which document each identifier term is attached to. */
    var idTerms: map<string, nat>
    /** `get_lastdocid()`: the highest document number handed out. */
    var lastDocId: nat

    /**
     * Documents are numbered 1 to `lastDocId` without gaps (the code never
     * deletes one). Every document carries the identifier term of its own
     * entry, and that term leads back to it and to no other document.
     */
    ghost predicate Valid()
      reads this
    {
      Numbered(docs, lastDocId) && TermsMatch(docs, idTerms)
    }

    /** The store seen through identifier terms: which entry each term finds. */
    ghost function Stored(): map<string, Entry>
      reads this
      requires Valid()
    {
      StoredOf(docs, idTerms)
    }

    constructor ()
      ensures Valid() && docs == map[] && idTerms == map[] && lastDocId == 0
    {
      docs := map[];
      idTerms := map[];
      lastDocId := 0;
    }

    /**
     * Lines 77-79 of `index_documents`: the entry's document gets the
     * boolean term `"Q" + id`, and `replace_document` on that term gives
     * the document holding it the new contents under its old number; when
     * there is none, the entry becomes a new document numbered one past
     * the last.
     */
    method ReplaceDocument(doc: Entry)
      requires Valid()
      modifies this
      ensures Valid()
      ensures old(IdTerm(doc) in idTerms) ==>
        idTerms == old(idTerms) && lastDocId == old(lastDocId) && docs == old(docs)[idTerms[IdTerm(doc)] := doc]
      ensures old(IdTerm(doc) !in idTerms) ==>
        && lastDocId == old(lastDocId) + 1
        && idTerms == old(idTerms)[IdTerm(doc) := lastDocId]
        && docs == old(docs)[lastDocId := doc]
      ensures Stored() == old(Stored())[IdTerm(doc) := doc]
      ensures idTerms.Keys == old(idTerms.Keys) + {IdTerm(doc)}
      ensures Extends(idTerms, old(idTerms))
    {
      var idTerm := IdTerm(doc);
      if idTerm in idTerms {
        ReplaceMatches(docs, idTerms, lastDocId, doc);
        ExtendsItself(idTerms);
        docs := docs[idTerms[idTerm] := doc];
      } else {
        AddMatches(docs, idTerms, lastDocId, doc);
        var n := lastDocId + 1;
        ExtendsByNewKey(idTerms, idTerm, n);
        docs, idTerms, lastDocId := docs[n := doc], idTerms[idTerm := n], n;
      }
    }

    /**
     * The loop of `index_documents` over the entries `get_entries`
     * returned: each identifier ends up on one document holding the last
     * entry with that identifier, identifiers already stored keep their
     * document numbers, and each identifier new to the store adds exactly
     * one document.
     */
    method IndexDocuments(entries: seq<Entry>)
      requires Valid()
      modifies this
      ensures Valid()
      ensures Stored() == old(Stored()) + LatestById(entries)
      ensures Extends(idTerms, old(idTerms))
      ensures lastDocId == old(lastDocId) + |LatestById(entries).Keys - old(idTerms).Keys|
    {
      ghost var start := Stored();
      ghost var terms := idTerms;
      ghost var last := lastDocId;
      for i := 0 to |entries|
        invariant Valid()
        invariant IndexedUpTo(entries, i, start, terms, last)
      {
        IndexEntry(entries, i, start, terms, last);
      }
      assert entries[..|entries|] == entries;
    }

    /**
     * What the loop of `index_documents` has done after `i` entries: the
     * store is the starting one overridden by the latest of those entries
     * per identifier, identifiers stored before keep their numbers, and
     * each new identifier added one document.
     */
    ghost predicate IndexedUpTo(entries: seq<Entry>, i: nat, start: map<string, Entry>, terms: map<string, nat>, last: nat)
      reads this
      requires Valid() && i <= |entries|
    {
      && Stored() == start + LatestById(entries[..i])
      && idTerms.Keys == terms.Keys + LatestById(entries[..i]).Keys
      && Extends(idTerms, terms)
      && lastDocId == last + |LatestById(entries[..i]).Keys - terms.Keys|
    }

    /** One pass of the loop body of `index_documents`. */
    method IndexEntry(entries: seq<Entry>, i: nat, ghost start: map<string, Entry>, ghost terms: map<string, nat>, ghost last: nat)
      requires Valid() && i < |entries| && IndexedUpTo(entries, i, start, terms, last)
      modifies this
      ensures Valid() && IndexedUpTo(entries, i + 1, start, terms, last)
    {
      var t := IdTerm(entries[i]);
      ghost var seen := LatestById(entries[..i]);
      ghost var before := Stored();
      ghost var keys := idTerms.Keys;
      ghost var count := lastDocId;
      ghost var wasStored := t in idTerms;
      ghost var numbers := idTerms;
      assert wasStored <==> t in seen.Keys || t in terms.Keys;
      NewTermCount(seen.Keys - terms.Keys, seen.Keys, terms.Keys, t);
      LatestByIdNext(entries, i);
      MergeUpdate(start, seen, t, entries[i]);
      ReplaceDocument(entries[i]);
      assert Stored() == before[t := entries[i]];
      AddToUnion(keys, terms.Keys, seen.Keys, t);
      ExtendsTransitive(idTerms, numbers, terms);
      assert lastDocId == count + (if wasStored then 0 else 1);
    }

    /** `get_document`: Xapian raises for a number without a document. */
    method GetDocument(identifier: nat) returns (r: Option<Match>)
      ensures r.Some? <==> identifier in docs
      ensures r.Some? ==> r.value.id == identifier && r.value.document == docs[identifier]
    {
      if identifier in docs {
        r := Some(Match(identifier, docs[identifier]));
      } else {
        r := None;
      }
    }

    /**
     * `get_random_document`, with the random number as the input `pick`:
     * `randint(1, lastDocId)` raises on an empty store, and otherwise the
     * number it draws always has a document.
     */
    method GetRandomDocument(pick: nat) returns (r: Option<Match>)
      requires Valid()
      ensures r.Some? <==> lastDocId > 0
      ensures r.Some? ==> 1 <= r.value.id <= lastDocId && r.value.id in docs && r.value.document == docs[r.value.id]
      ensures r.Some? ==> r.value.id == RandomId(pick, lastDocId)
    {
      if lastDocId == 0 {
        return None;
      }
      var identifier := RandomId(pick, lastDocId);
      r := Some(Match(identifier, docs[identifier]));
    }

    /**
     * `search`: no query gives `None`; otherwise the first `get_doccount()`
     * matches, each built from its stored document, sorted by year
     * descending.
     */
    method Search(query: Option<string>, matching: seq<nat>) returns (r: Option<seq<Match>>)
      requires Valid()
      requires forall k :: 0 <= k < |matching| ==> matching[k] in docs
      ensures r.None? <==> query.None? || query.value == ""
      ensures r.Some? ==> r.value == SortByYear(Built(docs, matching[..Min(|docs|, |matching|)]))
    {
      if query.None? || query.value == "" {
        return None;
      }
      var count := |docs|;
      var shown := matching[..Min(count, |matching|)];
      var matches: seq<Match> := [];
      for i := 0 to |shown|
        invariant matches == Built(docs, shown[..i])
      {
        assert shown[..i + 1][..i] == shown[..i];
        matches := matches + [Match(shown[i], docs[shown[i]])];
      }
      assert shown[..|shown|] == shown;
      r := Some(SortByYear(matches));
    }

    /**
     * `get_tags`: every `(category, keyword)` of every stored document,
     * visited in document order, counted under its category and the
     * keyword in lower case.
     */
    method GetTags() returns (tags: map<string, map<string, nat>>)
      requires Valid()
      ensures tags == Tally(StoredKeywords(docs, lastDocId))
    {
      tags := TallyDocuments(docs, lastDocId);
    }
  }

  /**
   * The loop of `get_tags` over the documents numbered 1 to `last`: every
   * keyword of every document, counted in document order.
   */
  method TallyDocuments(docs: map<nat, Entry>, last: nat) returns (tags: map<string, map<string, nat>>)
    requires forall d :: 1 <= d <= last ==> d in docs
    ensures tags == Tally(StoredKeywords(docs, last))
  {
    tags := map[];
    for identifier := 1 to last + 1
      invariant tags == Tally(StoredKeywords(docs, identifier - 1))
    {
      ghost var before := StoredKeywords(docs, identifier - 1);
      tags := CountKeywords(tags, docs[identifier].record.keywords, before);
      assert StoredKeywords(docs, identifier) == before + docs[identifier].record.keywords;
    }
  }

  lemma MergeUpdate<K, V>(a: map<K, V>, b: map<K, V>, k: K, v: V)
    ensures (a + b)[k := v] == a + b[k := v]
  {
  }

  /** A request for at most as many matches as there are documents loses nothing when the matches are distinct documents. */
  lemma NoMatchDropped(docs: map<nat, Entry>, matching: seq<nat>)
    requires forall k :: 0 <= k < |matching| ==> matching[k] in docs
    requires forall k, l :: 0 <= k < l < |matching| ==> matching[k] != matching[l]
    ensures matching[..Min(|docs|, |matching|)] == matching
  {
    var ids := set k | 0 <= k < |matching| :: matching[k];
    assert |ids| == |matching| by {
      DistinctCount(matching);
    }
    assert ids <= docs.Keys;
    assert |ids| <= |docs.Keys| by {
      SubsetCardinality(ids, docs.Keys);
    }
  }

  lemma {:induction false} DistinctCount(s: seq<nat>)
    requires forall k, l :: 0 <= k < l < |s| ==> s[k] != s[l]
    ensures |set k | 0 <= k < |s| :: s[k]| == |s|
  {
    if s != [] {
      var init := s[..|s| - 1];
      DistinctCount(init);
      var a := set k | 0 <= k < |init| :: init[k];
      var b := set k | 0 <= k < |s| :: s[k];
      assert b == a + {s[|s| - 1]};
      assert s[|s| - 1] !in a;
    }
  }

  lemma SubsetCardinality<T>(a: set<T>, b: set<T>)
    requires a <= b
    ensures |a| <= |b|
  {
    assert b == a + (b - a);
  }

  /** Every key of `small` is in `big` with the same value. */
  ghost predicate Extends<K, V>(big: map<K, V>, small: map<K, V>)
  {
    forall k :: k in small ==> k in big && big[k] == small[k]
  }

  lemma ExtendsItself<K, V>(m: map<K, V>)
    ensures Extends(m, m)
  {
  }

  lemma ExtendsByNewKey<K, V>(m: map<K, V>, k: K, v: V)
    requires k !in m
    ensures Extends(m[k := v], m)
  {
  }

  lemma ExtendsTransitive<K, V>(a: map<K, V>, b: map<K, V>, c: map<K, V>)
    requires Extends(a, b) && Extends(b, c)
    ensures Extends(a, c)
  {
  }

  /** The union of the seen identifiers with one more. */
  lemma AddToUnion<T>(a: set<T>, b: set<T>, c: set<T>, x: T)
    requires a == b + c
    ensures a + {x} == b + (c + {x})
  {
  }

  /** Adding one identifier to those seen grows the new ones by one exactly when it is new. */
  lemma NewTermCount(newTerms: set<string>, seen: set<string>, stored: set<string>, t: string)
    requires newTerms == seen - stored
    ensures |(seen + {t}) - stored| == |newTerms| + (if t in seen || t in stored then 0 else 1)
  {
    if t in seen || t in stored {
      assert (seen + {t}) - stored == newTerms;
    } else {
      assert (seen + {t}) - stored == newTerms + {t};
    }
  }

  /** The match each document number builds. */
  function Built(docs: map<nat, Entry>, ids: seq<nat>): (r: seq<Match>)
    requires forall k :: 0 <= k < |ids| ==> ids[k] in docs
    ensures |r| == |ids|
    ensures forall k :: 0 <= k < |ids| ==> r[k].id == ids[k] && r[k].document == docs[ids[k]]
  {
    if ids == [] then []
    else Built(docs, ids[..|ids| - 1]) + [Match(ids[|ids| - 1], docs[ids[|ids| - 1]])]
  }

  /** The document number `randint(1, last)` draws for the random input `pick`. */
  function RandomId(pick: nat, last: nat): (id: nat)
    requires last > 0
    ensures 1 <= id <= last
  {
    1 + pick % last
  }

  /** Every document number can be drawn. */
  lemma RandomIdCovers(id: nat, last: nat)
    requires 1 <= id <= last
    ensures RandomId(id - 1, last) == id
  {
  }

  // ---------------------------------------------------------------------------
  // The year sort of `search`

  function Year(m: Match): string
  {
    m.document.record.year
  }

  /** Newest first: no match is followed by one with a larger year string. */
  predicate NonIncreasing(s: seq<Match>)
  {
    forall i, j :: 0 <= i < j < |s| ==> !StrLess(Year(s[i]), Year(s[j]))
  }

  /** Where `m` goes in `s`: after every match whose year is not smaller. */
  function InsertPosition(m: Match, s: seq<Match>): (k: nat)
    ensures k <= |s|
    ensures forall i :: 0 <= i < k ==> !StrLess(Year(s[i]), Year(m))
    ensures k < |s| ==> StrLess(Year(s[k]), Year(m))
  {
    if s == [] || StrLess(Year(s[0]), Year(m)) then 0 else 1 + InsertPosition(m, s[1..])
  }

  function Insert(m: Match, s: seq<Match>): seq<Match>
  {
    var k := InsertPosition(m, s);
    s[..k] + [m] + s[k..]
  }

  /**
   * `sorted(matches, key=year, reverse=True)`: Python's sort is stable, and
   * stays so with `reverse=True`; inserting the matches one by one, each
   * after the equal years already placed, gives the same list.
   */
  function SortByYear(s: seq<Match>): seq<Match>
  {
    if s == [] then [] else Insert(s[|s| - 1], SortByYear(s[..|s| - 1]))
  }

  lemma InsertKeepsOrder(m: Match, s: seq<Match>)
    requires NonIncreasing(s)
    ensures NonIncreasing(Insert(m, s))
  {
    var k := InsertPosition(m, s);
    var r := Insert(m, s);
    assert r[k] == m;
    assert forall i :: 0 <= i < k ==> r[i] == s[i];
    assert forall i :: k < i < |r| ==> r[i] == s[i - 1];
    forall j | k < j < |r| ensures !StrLess(Year(m), Year(r[j])) {
      if StrLess(Year(m), Year(r[j])) {
        StrLessTransitive(Year(s[k]), Year(m), Year(s[j - 1]));
        if k == j - 1 {
          StrLessIrreflexive(Year(s[k]));
        }
      }
    }
  }

  lemma InsertPermutation(m: Match, t: seq<Match>)
    ensures multiset(Insert(m, t)) == multiset(t) + multiset{m}
  {
    var k := InsertPosition(m, t);
    var front, back := t[..k], t[k..];
    assert t == front + back;
    calc {
      multiset(Insert(m, t));
      multiset(front + [m] + back);
      multiset(front) + multiset{m} + multiset(back);
      multiset(front + back) + multiset{m};
    }
  }

  lemma {:induction false} SortByYearOrdered(s: seq<Match>)
    ensures NonIncreasing(SortByYear(s))
    ensures multiset(SortByYear(s)) == multiset(s)
  {
    if s != [] {
      var init, last := s[..|s| - 1], s[|s| - 1];
      SortByYearOrdered(init);
      InsertKeepsOrder(last, SortByYear(init));
      InsertPermutation(last, SortByYear(init));
      assert s == init + [last];
    }
  }

  /** Selects the matches of one year. */
  function YearIs(year: string): Match -> bool
  {
    m => Year(m) == year
  }

  /** Past its insert position, every match of a newest-first list is older than `m`. */
  lemma OlderAfterPosition(m: Match, t: seq<Match>)
    requires NonIncreasing(t)
    ensures var k := InsertPosition(m, t);
      forall i :: k <= i < |t| ==> Year(t[i]) != Year(m)
  {
    var k := InsertPosition(m, t);
    forall i | k <= i < |t| ensures Year(t[i]) != Year(m) {
      if Year(t[i]) == Year(m) && i == k {
        StrLessIrreflexive(Year(m));
      }
    }
  }

  /** Inserting a match adds it after the matches of its own year already in place. */
  lemma FilterInsert(m: Match, t: seq<Match>, year: string)
    requires NonIncreasing(t)
    ensures Filter(Insert(m, t), YearIs(year)) == Filter(t, YearIs(year)) + (if Year(m) == year then [m] else [])
  {
    var k := InsertPosition(m, t);
    var front, back := t[..k], t[k..];
    assert t == front + back;
    assert Insert(m, t) == front + [m] + back;
    if Year(m) == year {
      OlderAfterPosition(m, t);
      OlderBehind(m, t, k, year);
      FilterAddLast(front, back, m, YearIs(year));
    } else {
      FilterDropSkipped(front, back, m, YearIs(year));
    }
  }

  lemma OlderBehind(m: Match, t: seq<Match>, k: nat, year: string)
    requires k <= |t| && Year(m) == year
    requires forall i :: k <= i < |t| ==> Year(t[i]) != Year(m)
    ensures forall i :: 0 <= i < |t[k..]| ==> !YearIs(year)(t[k..][i])
  {
  }

  /** The matches of each year keep the order in which Xapian produced them. */
  lemma {:induction false} SortByYearStable(s: seq<Match>, year: string)
    ensures Filter(SortByYear(s), YearIs(year)) == Filter(s, YearIs(year))
  {
    if s != [] {
      var init := s[..|s| - 1];
      SortByYearStable(init, year);
      SortByYearOrdered(init);
      FilterInsert(s[|s| - 1], SortByYear(init), year);
    }
  }

  /** The order the documentation describes: 2019, 2022, 2020 come out as 2022, 2020, 2019. */
  lemma SortByYearExample(a: Match, b: Match, c: Match)
    requires Year(a) == "2019" && Year(b) == "2022" && Year(c) == "2020"
    ensures SortByYear([a, b, c]) == [b, c, a]
  {
    var s := [a, b, c];
    assert s[..2] == [a, b] && s[..2][..1] == [a] && s[..1][..0] == [];
    assert StrLess("2019", "2022") && StrLess("2019", "2020") && StrLess("2020", "2022");
    StrLessAsymmetric("2019", "2022");
    StrLessAsymmetric("2020", "2022");
    assert SortByYear([a]) == [a];
    assert InsertPosition(b, [a]) == 0;
    assert SortByYear([a, b]) == [b, a];
    assert InsertPosition(c, [b, a]) == 1;
  }

  // ---------------------------------------------------------------------------
  // get_tags

  /** The keywords of documents 1 to n, in document order. */
  function StoredKeywords(docs: map<nat, Entry>, n: nat): seq<Keyword>
    requires forall d :: 1 <= d <= n ==> d in docs
  {
    if n == 0 then [] else StoredKeywords(docs, n - 1) + docs[n].record.keywords
  }

  /** `tags[category][keyword] += 1` on a `defaultdict(Counter)`. */
  function Bump(tags: map<string, map<string, nat>>, category: string, keyword: string): map<string, map<string, nat>>
  {
    var counter := if category in tags then tags[category] else map[];
    tags[category := counter[keyword := (if keyword in counter then counter[keyword] else 0) + 1]]
  }

  /** The counters after counting the pairs `pairs` in order. */
  function Tally(pairs: seq<Keyword>): map<string, map<string, nat>>
  {
    if pairs == [] then map[]
    else
      var last := pairs[|pairs| - 1];
      Bump(Tally(pairs[..|pairs| - 1]), last.0, Lower(last.1))
  }

  /** The loop over one document's keywords in `get_tags`. */
  method CountKeywords(tags: map<string, map<string, nat>>, keywords: seq<Keyword>, ghost before: seq<Keyword>)
    returns (counted: map<string, map<string, nat>>)
    requires tags == Tally(before)
    ensures counted == Tally(before + keywords)
  {
    counted := tags;
    assert before + keywords[..0] == before;
    for k := 0 to |keywords|
      invariant counted == Tally(before + keywords[..k])
    {
      TallyStep(before + keywords[..k], keywords[k]);
      assert before + keywords[..k + 1] == before + keywords[..k] + [keywords[k]];
      counted := Bump(counted, keywords[k].0, Lower(keywords[k].1));
    }
    assert keywords[..|keywords|] == keywords;
  }

  lemma TallyStep(pairs: seq<Keyword>, x: Keyword)
    ensures Tally(pairs + [x]) == Bump(Tally(pairs), x.0, Lower(x.1))
  {
    assert (pairs + [x])[..|pairs|] == pairs;
  }

  /** The pairs as they are counted: keyword in lower case. */
  function Lowered(pairs: seq<Keyword>): seq<Keyword>
  {
    Apply(pairs, LowerPair)
  }

  /** How often `get_tags` counted `keyword` under `category`, 0 when never. */
  function Count(tags: map<string, map<string, nat>>, category: string, keyword: string): nat
  {
    if category in tags && keyword in tags[category] then tags[category][keyword] else 0
  }

  /** The counters hold a category exactly when some pair has it. */
  lemma {:induction false} TallyCategories(pairs: seq<Keyword>, c: string)
    ensures c in Tally(pairs) <==> exists i :: 0 <= i < |pairs| && pairs[i].0 == c
  {
    if pairs != [] {
      var init := pairs[..|pairs| - 1];
      TallyCategories(init, c);
      if exists i :: 0 <= i < |init| && init[i].0 == c {
        var i :| 0 <= i < |init| && init[i].0 == c;
        assert pairs[i] == init[i];
      }
      if exists i :: 0 <= i < |pairs| && pairs[i].0 == c {
        var i :| 0 <= i < |pairs| && pairs[i].0 == c;
        if i < |init| {
          assert init[i] == pairs[i];
        }
      }
    }
  }

  /**
   * Each count is the number of pairs with that category and that keyword
   * once lower-cased, and no counter holds a zero.
   */
  lemma {:induction false} TallyCount(pairs: seq<Keyword>, c: string, k: string)
    ensures Count(Tally(pairs), c, k) == multiset(Lowered(pairs))[(c, k)]
    ensures c in Tally(pairs) && k in Tally(pairs)[c] ==> Tally(pairs)[c][k] > 0
  {
    if pairs != [] {
      var init := pairs[..|pairs| - 1];
      var last := pairs[|pairs| - 1];
      TallyCount(init, c, k);
      assert Lowered(pairs) == Lowered(init) + [(last.0, Lower(last.1))];
    }
  }

  /** Every keyword `get_tags` counts is in lower case. */
  lemma {:induction false} TallyKeysLower(pairs: seq<Keyword>)
    ensures forall c, k :: c in Tally(pairs) && k in Tally(pairs)[c] ==> IsLower(k)
  {
    if pairs != [] {
      TallyKeysLower(pairs[..|pairs| - 1]);
      LowerIsLower(pairs[|pairs| - 1].1);
    }
  }

  /** The counts depend only on which pairs occur how often, not on the order of the documents. */
  lemma TallyOrderFree(p: seq<Keyword>, q: seq<Keyword>)
    requires multiset(p) == multiset(q)
    ensures Tally(p) == Tally(q)
  {
    LoweredPermutation(p, q);
    forall c ensures c in Tally(p) <==> c in Tally(q) {
      SameCategories(p, q, c);
    }
    forall c | c in Tally(p) ensures Tally(p)[c] == Tally(q)[c] {
      forall k ensures k in Tally(p)[c] <==> k in Tally(q)[c] {
        TallyCount(p, c, k);
        TallyCount(q, c, k);
      }
      forall k | k in Tally(p)[c] ensures Tally(p)[c][k] == Tally(q)[c][k] {
        TallyCount(p, c, k);
        TallyCount(q, c, k);
      }
    }
  }

  lemma SameCategories(p: seq<Keyword>, q: seq<Keyword>, c: string)
    requires multiset(p) == multiset(q)
    ensures c in Tally(p) <==> c in Tally(q)
  {
    TallyCategories(p, c);
    TallyCategories(q, c);
    if exists i :: 0 <= i < |p| && p[i].0 == c {
      var i :| 0 <= i < |p| && p[i].0 == c;
      assert p[i] in multiset(q);
      var j :| 0 <= j < |q| && q[j] == p[i];
    }
    if exists j :: 0 <= j < |q| && q[j].0 == c {
      var j :| 0 <= j < |q| && q[j].0 == c;
      assert q[j] in multiset(p);
      var i :| 0 <= i < |p| && p[i] == q[j];
    }
  }

  function LowerPair(pair: Keyword): Keyword
  {
    (pair.0, Lower(pair.1))
  }

  lemma LoweredPermutation(p: seq<Keyword>, q: seq<Keyword>)
    requires multiset(p) == multiset(q)
    ensures multiset(Lowered(p)) == multiset(Lowered(q))
  {
    ApplyPermutation(p, q, LowerPair);
  }
}
