/**
 The hero query: the postings list of the query's term, and the mapping of its document IDs
 back to file names.
 */
module Search {
  import opened Results
  import opened Text
  import opened Tables
  import opened Pages
  import opened Vocabulary
  import opened Postings

  /** The vocabulary term a query names: the prepared hero name, lower-cased (lines 307-308). */
  function QueryTerm(query: string): (t: string)
    ensures forall c :: c in t ==> c != ' ' && c != '-' && !IsPunctuation(c) && !IsDigit(c) && !IsUpper(c)
  {
    var prepared := PrepareHeroName(query);
    assert forall k :: 0 <= k < |prepared| ==> prepared[k] in prepared;
    Lower(prepared)
  }

  /** The vocabulary pass and the query normalise a hero name the same way. */
  lemma HeroTermIsQueryTerm(page: Page)
    requires |page.heroValues| > 0
    ensures HeroTerm(page) == Ok(QueryTerm(page.heroValues[0]))
  {
  }

  /**
   Lines 307-309: the postings list of the query's term. Fails when the term is not in the
   vocabulary (the lookup's IndexError) or its ID is not a key of the table (KeyError).
   */
  function SearchPostings(postings: PostingsTable, vocabulary: map<int, string>, query: string): (r: Result<seq<int>>)
    ensures QueryTerm(query) !in vocabulary.Values ==> r == Err(ValueNotFound)
    ensures QueryTerm(query) in vocabulary.Values ==>
              var id := ExtractDictionaryKey(vocabulary, QueryTerm(query)).value;
              r == if id in postings then Ok(postings[id]) else Err(KeyNotFound)
  {
    var id :- ExtractDictionaryKey(vocabulary, QueryTerm(query));
    if id !in postings then Err(KeyNotFound) else Ok(postings[id])
  }

  /**
   The values line 310 compares: the catalog holds file names, the postings list holds
   integer IDs. Python's `==` between a string and an integer is false.
   */
  datatype Value = Name(name: string) | Id(id: int)

  /** The catalog as seen by the comparison of line 310: every value is a file name. */
  function NameValues(catalog: map<int, string>): (m: map<int, Value>)
    ensures m.Keys == catalog.Keys
    ensures forall v :: v in m.Values ==> v.Name?
  {
    map k | k in catalog :: Name(catalog[k])
  }

  /**
   Line 310 as written: each document ID is reverse-looked-up among the catalog's file names.
   No file name equals an integer, so every lookup fails, and the whole list succeeds only
   when it is empty.
   */
  function RetrieveDocumentsAsWritten(catalog: map<int, string>, ids: seq<int>): (r: Result<seq<int>>)
    ensures r.Ok? <==> ids == []
    ensures r.Err? ==> r.error == ValueNotFound
  {
    if ids == [] then Ok([])
    else
      assert Id(ids[0]) !in NameValues(catalog).Values;
      Cons(ExtractDictionaryKey(NameValues(catalog), Id(ids[0])), RetrieveDocumentsAsWritten(catalog, ids[1..]))
  }

  /** One element of a list comprehension in front of the rest; the first failure wins. */
  function Cons<T>(head: Result<T>, tail: Result<seq<T>>): (r: Result<seq<T>>)
    ensures r.Ok? <==> head.Ok? && tail.Ok?
    ensures r.Ok? ==> r.value == [head.value] + tail.value
    ensures head.Err? ==> r == Err(head.error)
    ensures head.Ok? && tail.Err? ==> r == Err(tail.error)
  {
    if head.Err? then Err(head.error)
    else if tail.Err? then Err(tail.error)
    else Ok([head.value] + tail.value)
  }

  /** `search_for_hero` as written: the query's postings list, then line 310. */
  function SearchForHero(postings: PostingsTable, vocabulary: map<int, string>, catalog: map<int, string>,
                         query: string): (r: Result<seq<int>>)
    ensures SearchPostings(postings, vocabulary, query).Err? ==> r == Err(SearchPostings(postings, vocabulary, query).error)
    ensures SearchPostings(postings, vocabulary, query).Ok? ==>
              (r.Ok? <==> SearchPostings(postings, vocabulary, query).value == [])
    ensures r.Ok? ==> r.value == []
  {
    var ids :- SearchPostings(postings, vocabulary, query);
    RetrieveDocumentsAsWritten(catalog, ids)
  }

  /**
   Any query whose term is in the vocabulary and posted for some document makes the
   as-written search fail: here a one-term, one-document index.
   */
  lemma SearchForHeroFailsOnHit(query: string)
    ensures SearchPostings(map[0 := [0]], map[0 := QueryTerm(query)], query) == Ok([0])
    ensures SearchForHero(map[0 := [0]], map[0 := QueryTerm(query)], map[0 := query + ".html"], query) == Err(ValueNotFound)
  {
    var vocabulary := map[0 := QueryTerm(query)];
    assert vocabulary[0] in vocabulary.Values;
  }

  /**
   Line 310 as evidently intended: each document ID is mapped forward to its file name;
   fails only for an ID the catalog does not hold.
   */
  function RetrieveDocuments(catalog: map<int, string>, ids: seq<int>): (r: Result<seq<string>>)
    ensures r.Ok? <==> forall i :: 0 <= i < |ids| ==> ids[i] in catalog
    ensures r.Err? ==> r.error == KeyNotFound
    ensures r.Ok? ==> |r.value| == |ids| && forall i :: 0 <= i < |ids| ==> r.value[i] == catalog[ids[i]]
  {
    if ids == [] then Ok([])
    else if ids[0] !in catalog then Err(KeyNotFound)
    else
      var rest :- RetrieveDocuments(catalog, ids[1..]);
      Ok([catalog[ids[0]]] + rest)
  }

  /** Mapping IDs forward inverts the reverse lookup that produced them. */
  lemma RetrieveDocumentsInvertsLookup(catalog: map<int, string>, names: seq<string>)
    requires forall i :: 0 <= i < |names| ==> names[i] in catalog.Values
    ensures var ids := seq(|names|, i requires 0 <= i < |names| => ExtractDictionaryKey(catalog, names[i]).value);
      RetrieveDocuments(catalog, ids) == Ok(names)
  {
    var ids := seq(|names|, i requires 0 <= i < |names| => ExtractDictionaryKey(catalog, names[i]).value);
    assert forall i :: 0 <= i < |ids| ==> ids[i] in catalog && catalog[ids[i]] == names[i];
    var r := RetrieveDocuments(catalog, ids);
    assert r.value == names;
  }

  /** `search_for_hero` with line 310 corrected: the file names of the query's postings. */
  function SearchForHeroCorrected(postings: PostingsTable, vocabulary: map<int, string>, catalog: map<int, string>,
                                  query: string): (r: Result<seq<string>>)
    ensures SearchPostings(postings, vocabulary, query).Err? ==> r == Err(SearchPostings(postings, vocabulary, query).error)
    ensures SearchPostings(postings, vocabulary, query).Ok? ==>
              var ids := SearchPostings(postings, vocabulary, query).value;
              r == RetrieveDocuments(catalog, ids)
  {
    var ids :- SearchPostings(postings, vocabulary, query);
    RetrieveDocuments(catalog, ids)
  }

  /**
   On a table built from a listing, the postings lookup fails only for a query whose term is
   not in the vocabulary: every vocabulary ID is a key of the table.
   */
  lemma SearchBuiltIndex(files: seq<File>, stopwords: set<string>, orders: seq<seq<string>>, query: string)
    requires ValidOrders(files, stopwords, orders)
    requires CreatePostingsTable(files, stopwords, orders).Ok?
    ensures var vocabulary := RetrieveAllVocabulary(files, stopwords, orders).value;
      var postings := CreatePostingsTable(files, stopwords, orders).value;
      var r := SearchPostings(postings, vocabulary, query);
      && (r.Ok? <==> QueryTerm(query) in vocabulary.Values)
      && (r.Err? ==> r.error == ValueNotFound)
      && (r.Ok? ==> var k := ExtractDictionaryKey(vocabulary, QueryTerm(query)).value;
                    k in postings && vocabulary[k] == QueryTerm(query) && r.value == postings[k])
  {
  }

  /**
   Searching a built index for a listed page's own first hero value always finds its term in
   the vocabulary: the lookup of line 308 never fails, and the list retrieved is the one the
   table holds for the page's hero term.
   */
  lemma SearchOwnHeroFindsPostings(files: seq<File>, stopwords: set<string>, orders: seq<seq<string>>, j: int)
    requires ValidOrders(files, stopwords, orders)
    requires CreatePostingsTable(files, stopwords, orders).Ok?
    requires 0 <= j < |files| && |files[j].page.heroValues| > 0
    ensures var vocabulary := RetrieveAllVocabulary(files, stopwords, orders).value;
      var postings := CreatePostingsTable(files, stopwords, orders).value;
      var term := HeroTerm(files[j].page).value;
      var r := SearchPostings(postings, vocabulary, files[j].page.heroValues[0]);
      && term in vocabulary.Values
      && r.Ok?
      && r.value == postings[ExtractDictionaryKey(vocabulary, term).value]
  {
    CreatePostingsTableSucceeds(files, stopwords, orders);
    HeroTermInVocabulary(files, stopwords, orders, j);
    HeroTermIsQueryTerm(files[j].page);
    SearchBuiltIndex(files, stopwords, orders, files[j].page.heroValues[0]);
  }

  /**
   The postings list a query retrieves from a built table holds `d` exactly when some listed
   page with document ID `d` has the query's term among its paragraph terms.
   */
  lemma SearchBuiltIndexMembers(files: seq<File>, stopwords: set<string>, orders: seq<seq<string>>, query: string, d: int)
    requires ValidOrders(files, stopwords, orders)
    requires CreatePostingsTable(files, stopwords, orders).Ok?
    requires QueryTerm(query) in RetrieveAllVocabulary(files, stopwords, orders).value.Values
    ensures AllIdentified(files, Catalog(files))
    ensures var vocabulary := RetrieveAllVocabulary(files, stopwords, orders).value;
      var postings := CreatePostingsTable(files, stopwords, orders).value;
      d in SearchPostings(postings, vocabulary, query).value <==>
      exists i :: 0 <= i < |files| && QueryTerm(query) in ParagraphTerms(files[i].page, stopwords)
                  && DocumentId(files[i].page, Catalog(files)) == Ok(d)
  {
    CreatePostingsTableContents(files, stopwords, orders);
    SearchBuiltIndex(files, stopwords, orders, query);
    var vocabulary := RetrieveAllVocabulary(files, stopwords, orders).value;
    var k := ExtractDictionaryKey(vocabulary, QueryTerm(query)).value;
    PostingsMembers(files, stopwords, orders, k, d);
  }

  /** The postings list a query retrieves from a built table is the term's hits, each once. */
  lemma SearchBuiltIndexHits(files: seq<File>, stopwords: set<string>, orders: seq<seq<string>>, query: string)
    requires ValidOrders(files, stopwords, orders)
    requires CreatePostingsTable(files, stopwords, orders).Ok?
    requires QueryTerm(query) in RetrieveAllVocabulary(files, stopwords, orders).value.Values
    ensures AllIdentified(files, Catalog(files))
    ensures var vocabulary := RetrieveAllVocabulary(files, stopwords, orders).value;
      var postings := CreatePostingsTable(files, stopwords, orders).value;
      SearchPostings(postings, vocabulary, query) == Ok(Dedup(Hits(files, Catalog(files), stopwords, QueryTerm(query))))
  {
    SearchBuiltIndex(files, stopwords, orders, query);
    var vocabulary := RetrieveAllVocabulary(files, stopwords, orders).value;
    PostingsList(files, stopwords, orders, ExtractDictionaryKey(vocabulary, QueryTerm(query)).value);
  }

  /** Some listed page's paragraphs yield the term `t`. */
  ghost predicate Yielded(files: seq<File>, stopwords: set<string>, t: string) {
    exists i :: 0 <= i < |files| && t in ParagraphTerms(files[i].page, stopwords)
  }

  /** A term has no hits exactly when no listed page's paragraphs yield it. */
  lemma NoHitsIff(files: seq<File>, catalog: map<int, string>, stopwords: set<string>, t: string)
    requires AllIdentified(files, catalog)
    ensures Dedup(Hits(files, catalog, stopwords, t)) == [] <==> !Yielded(files, stopwords, t)
  {
    if forall i :: 0 <= i < |files| ==> t !in ParagraphTerms(files[i].page, stopwords) {
      NoHits(files, catalog, stopwords, t);
    } else {
      var i :| 0 <= i < |files| && t in ParagraphTerms(files[i].page, stopwords);
      HitsMembers(files, catalog, stopwords, t);
      var d := DocumentId(files[i].page, catalog).value;
      assert d in Hits(files, catalog, stopwords, t);
      assert d in Dedup(Hits(files, catalog, stopwords, t));
    }
  }

  /**
   On a built table the search as written succeeds only when the query's term is in the
   vocabulary but no page's paragraphs yield it, and then it returns nothing: whenever the
   query has a hit, line 310 fails.
   */
  lemma SearchForHeroOnBuiltIndex(files: seq<File>, stopwords: set<string>, orders: seq<seq<string>>, query: string)
    requires ValidOrders(files, stopwords, orders)
    requires CreatePostingsTable(files, stopwords, orders).Ok?
    ensures var vocabulary := RetrieveAllVocabulary(files, stopwords, orders).value;
      var postings := CreatePostingsTable(files, stopwords, orders).value;
      var r := SearchForHero(postings, vocabulary, Catalog(files), query);
      && (r.Ok? <==> QueryTerm(query) in vocabulary.Values && !Yielded(files, stopwords, QueryTerm(query)))
      && (r.Err? ==> r.error == ValueNotFound)
  {
    var vocabulary := RetrieveAllVocabulary(files, stopwords, orders).value;
    var postings := CreatePostingsTable(files, stopwords, orders).value;
    var t := QueryTerm(query);
    var found := SearchPostings(postings, vocabulary, query);
    SearchBuiltIndex(files, stopwords, orders, query);
    if t in vocabulary.Values {
      SearchBuiltIndexHits(files, stopwords, orders, query);
      var ids := Dedup(Hits(files, Catalog(files), stopwords, t));
      assert found == Ok(ids);
      NoHitsIff(files, Catalog(files), stopwords, t);
    } else {
      assert found == Err(ValueNotFound);
    }
  }

  /** A listed page whose paragraphs yield the term `t` has the file name `name`. */
  ghost predicate YieldedBy(files: seq<File>, stopwords: set<string>, t: string, name: string) {
    exists i :: 0 <= i < |files| && t in ParagraphTerms(files[i].page, stopwords) && DocumentName(files[i].page) == Ok(name)
  }

  /** A hit of `t` is the ID of a listed page whose paragraphs yield `t`, and names that page's file. */
  lemma HitNamed(files: seq<File>, catalog: map<int, string>, stopwords: set<string>, t: string, d: int)
    requires AllIdentified(files, catalog)
    requires d in Hits(files, catalog, stopwords, t)
    ensures d in catalog && YieldedBy(files, stopwords, t, catalog[d])
  {
    HitsMembers(files, catalog, stopwords, t);
    var i :| 0 <= i < |files| && t in ParagraphTerms(files[i].page, stopwords) && DocumentId(files[i].page, catalog) == Ok(d);
    assert DocumentName(files[i].page) == Ok(catalog[d]);
  }

  /** Every listed page whose paragraphs yield `t` contributes its ID to the hits of `t`. */
  lemma NamedHit(files: seq<File>, catalog: map<int, string>, stopwords: set<string>, t: string, name: string)
    requires AllIdentified(files, catalog)
    requires YieldedBy(files, stopwords, t, name)
    ensures exists d :: d in Hits(files, catalog, stopwords, t) && d in catalog && catalog[d] == name
  {
    var i :| 0 <= i < |files| && t in ParagraphTerms(files[i].page, stopwords) && DocumentName(files[i].page) == Ok(name);
    HitsMembers(files, catalog, stopwords, t);
    var d := DocumentId(files[i].page, catalog).value;
    assert d in Hits(files, catalog, stopwords, t);
  }

  /** Mapping IDs the catalog holds forward yields exactly the names of those IDs. */
  lemma RetrievedNames(catalog: map<int, string>, ids: seq<int>, name: string)
    requires forall j :: 0 <= j < |ids| ==> ids[j] in catalog
    ensures RetrieveDocuments(catalog, ids).Ok?
    ensures name in RetrieveDocuments(catalog, ids).value <==> exists d :: d in ids && d in catalog && catalog[d] == name
  {
    var r := RetrieveDocuments(catalog, ids).value;
    if name in r {
      var j :| 0 <= j < |r| && r[j] == name;
      assert ids[j] in ids;
    }
    if exists d :: d in ids && d in catalog && catalog[d] == name {
      var d :| d in ids && d in catalog && catalog[d] == name;
      var j :| 0 <= j < |ids| && ids[j] == d;
      assert r[j] == name;
    }
  }

  /** The file names of a term's hits are those of the listed pages whose paragraphs yield it. */
  lemma HitNames(files: seq<File>, catalog: map<int, string>, stopwords: set<string>, t: string, name: string)
    requires AllIdentified(files, catalog)
    ensures var r := RetrieveDocuments(catalog, Dedup(Hits(files, catalog, stopwords, t)));
      && r.Ok?
      && (name in r.value <==> YieldedBy(files, stopwords, t, name))
  {
    var hits := Hits(files, catalog, stopwords, t);
    var ids := Dedup(hits);
    forall j | 0 <= j < |ids| ensures ids[j] in catalog {
      assert ids[j] in hits;
      HitNamed(files, catalog, stopwords, t, ids[j]);
    }
    RetrievedNames(catalog, ids, name);
    if exists d :: d in ids && d in catalog && catalog[d] == name {
      var d :| d in ids && d in catalog && catalog[d] == name;
      HitNamed(files, catalog, stopwords, t, d);
    }
    if YieldedBy(files, stopwords, t, name) {
      NamedHit(files, catalog, stopwords, t, name);
    }
  }

  /**
   On a built table the corrected search fails only for a query whose term is not in the
   vocabulary, and returns the file name of every page whose paragraphs yield the term.
   */
  lemma SearchForHeroCorrectedOnBuiltIndex(files: seq<File>, stopwords: set<string>, orders: seq<seq<string>>,
                                           query: string, name: string)
    requires ValidOrders(files, stopwords, orders)
    requires CreatePostingsTable(files, stopwords, orders).Ok?
    ensures var vocabulary := RetrieveAllVocabulary(files, stopwords, orders).value;
      var postings := CreatePostingsTable(files, stopwords, orders).value;
      var r := SearchForHeroCorrected(postings, vocabulary, Catalog(files), query);
      && (r.Ok? <==> QueryTerm(query) in vocabulary.Values)
      && (r.Err? ==> r.error == ValueNotFound)
      && (r.Ok? ==> (name in r.value <==> YieldedBy(files, stopwords, QueryTerm(query), name)))
  {
    SearchBuiltIndex(files, stopwords, orders, query);
    if QueryTerm(query) in RetrieveAllVocabulary(files, stopwords, orders).value.Values {
      SearchBuiltIndexHits(files, stopwords, orders, query);
      HitNames(files, Catalog(files), stopwords, QueryTerm(query), name);
    }
  }
}
