/**
 The postings table: for every vocabulary term ID, the IDs of the documents whose paragraphs
 contain the term, each at most once, in the order the documents are listed.
 */
module Postings {
  import opened Results
  import opened Tables
  import opened Pages
  import opened Vocabulary

  /** Term ID to the list of document IDs posted for it. */
  type PostingsTable = map<int, seq<int>>

  /**
   `construct_postings_table_base`: every vocabulary key gets an empty list; keys of the table
   that are not vocabulary keys keep their lists.
   */
  function ConstructPostingsTableBase(p: PostingsTable, vocabulary: map<int, string>): (r: PostingsTable)
    ensures r.Keys == p.Keys + vocabulary.Keys
    ensures forall k :: k in vocabulary ==> r[k] == []
    ensures forall k :: k in p && k !in vocabulary ==> r[k] == p[k]
  {
    map k | k in p.Keys + vocabulary.Keys :: if k in vocabulary then [] else p[k]
  }

  /** Lines 139 and 147: the ID the catalog gives the file name the page claims. */
  function DocumentId(page: Page, catalog: map<int, string>): (r: Result<int>)
    ensures r.Ok? <==> DocumentName(page).Ok? && DocumentName(page).value in catalog.Values
    ensures r.Ok? ==> r.value in catalog && catalog[r.value] == DocumentName(page).value
    ensures |page.titles| == 0 ==> r == Err(NoSuchElement)
    ensures r.Err? ==> r.error == NoSuchElement || r.error == ValueNotFound
  {
    var name :- DocumentName(page);
    ExtractDictionaryKey(catalog, name)
  }

  /**
   `t` is a vocabulary value whose ID is a key of the table: the condition under which the
   lookups of lines 149-150 succeed for `t`.
   */
  ghost predicate Indexed(t: string, vocabulary: map<int, string>, keys: set<int>) {
    t in vocabulary.Values && ExtractDictionaryKey(vocabulary, t).value in keys
  }

  /** Every term of a set is indexed. */
  ghost predicate TermsIndexed(terms: set<string>, vocabulary: map<int, string>, keys: set<int>) {
    forall t :: t in terms ==> Indexed(t, vocabulary, keys)
  }

  /** Every term of an iteration order is indexed. */
  ghost predicate AllIndexed(order: seq<string>, vocabulary: map<int, string>, keys: set<int>) {
    forall t :: t in order ==> Indexed(t, vocabulary, keys)
  }

  /**
   The loop of lines 148-153: for each term in turn, look its ID up and append the document
   ID to that term's list unless it is already there.
   */
  function PostTerms(p: PostingsTable, docId: int, vocabulary: map<int, string>, order: seq<string>): (r: Result<PostingsTable>)
    ensures r.Ok? <==> AllIndexed(order, vocabulary, p.Keys)
    ensures r.Err? ==> r.error == ValueNotFound || r.error == KeyNotFound
    ensures r.Err? && (forall t :: t in order ==> t in vocabulary.Values) ==> r.error == KeyNotFound
    ensures r.Ok? ==> r.value.Keys == p.Keys
    decreases |order|
  {
    if order == [] then Ok(p)
    else
      assert Indexed(order[0], vocabulary, p.Keys) ==> order[0] in vocabulary.Values;
      var id :- ExtractDictionaryKey(vocabulary, order[0]);
      if id !in p then Err(KeyNotFound)
      else
        assert forall t :: t in order[1..] ==> t in order;
        assert forall t :: t in order ==> t == order[0] || t in order[1..];
        PostTerms(p[id := AppendAbsent(p[id], docId)], docId, vocabulary, order[1..])
  }

  /**
   After the loop, the list of every term visited is its old list with the document ID
   appended if absent, and every list no visited term maps to is unchanged.
   */
  lemma {:induction false} PostTermsContents(p: PostingsTable, docId: int, vocabulary: map<int, string>, order: seq<string>)
    requires PostTerms(p, docId, vocabulary, order).Ok?
    ensures var r := PostTerms(p, docId, vocabulary, order).value;
      && (forall t :: t in order ==>
            var k := ExtractDictionaryKey(vocabulary, t).value;
            r[k] == AppendAbsent(p[k], docId))
      && (forall k :: k in p && (forall t :: t in order ==> ExtractDictionaryKey(vocabulary, t) != Ok(k)) ==>
            r[k] == p[k])
    decreases |order|
  {
    if order != [] {
      var id := ExtractDictionaryKey(vocabulary, order[0]).value;
      var q := p[id := AppendAbsent(p[id], docId)];
      var rest := order[1..];
      var r := PostTerms(p, docId, vocabulary, order).value;
      assert PostTerms(q, docId, vocabulary, rest) == Ok(r);
      PostTermsContents(q, docId, vocabulary, rest);
      AppendAbsentIdempotent(p[id], docId);
      forall t | t in order
        ensures var k := ExtractDictionaryKey(vocabulary, t).value; r[k] == AppendAbsent(p[k], docId)
      {
        var k := ExtractDictionaryKey(vocabulary, t).value;
        if t in rest {
        } else {
          // distinct terms have distinct IDs, so no later term shares this one's
          assert forall u :: u in rest ==> ExtractDictionaryKey(vocabulary, u) != Ok(k);
        }
      }
      forall k | k in p && (forall t :: t in order ==> ExtractDictionaryKey(vocabulary, t) != Ok(k))
        ensures r[k] == p[k]
      {
        assert order[0] in order;
        assert forall t :: t in rest ==> t in order;
      }
    }
  }

  /**
   `construct_postings_table`: the page's title names the document whose ID is posted, and
   the ID is appended, once, to the list of each of the page's paragraph terms (taken in the
   order `order` in which the set yields them). The hero term is not posted.
   */
  function ConstructPostingsTable(p: PostingsTable, page: Page, vocabulary: map<int, string>, catalog: map<int, string>,
                                  stopwords: set<string>, order: seq<string>): (r: Result<PostingsTable>)
    requires IsEnumeration(order, ParagraphTerms(page, stopwords))
    ensures r.Ok? <==> DocumentId(page, catalog).Ok? && TermsIndexed(ParagraphTerms(page, stopwords), vocabulary, p.Keys)
    ensures DocumentId(page, catalog).Err? ==> r == Err(DocumentId(page, catalog).error)
    ensures r.Err? && TermsIndexed(ParagraphTerms(page, stopwords), vocabulary, p.Keys) ==> r == Err(DocumentId(page, catalog).error)
    ensures r.Ok? ==> r.value.Keys == p.Keys
  {
    var docId :- DocumentId(page, catalog);
    var terms := ParagraphTerms(page, stopwords);
    assert AllIndexed(order, vocabulary, p.Keys) <==> TermsIndexed(terms, vocabulary, p.Keys);
    PostTerms(p, docId, vocabulary, order)
  }

  /**
   What posting a page does to the table: the list of each of the page's paragraph terms gets
   the document ID appended if absent, every other list is unchanged, so each list keeps its
   old entries as a prefix, grows by at most one and stays free of duplicates.
   */
  lemma ConstructPostingsTableContents(p: PostingsTable, page: Page, vocabulary: map<int, string>, catalog: map<int, string>,
                                       stopwords: set<string>, order: seq<string>)
    requires IsEnumeration(order, ParagraphTerms(page, stopwords))
    requires ConstructPostingsTable(p, page, vocabulary, catalog, stopwords, order).Ok?
    ensures var r := ConstructPostingsTable(p, page, vocabulary, catalog, stopwords, order).value;
      var docId := DocumentId(page, catalog).value;
      && (forall t :: t in ParagraphTerms(page, stopwords) ==>
            var k := ExtractDictionaryKey(vocabulary, t).value;
            r[k] == AppendAbsent(p[k], docId))
      && (forall k :: k in p && (forall t :: t in ParagraphTerms(page, stopwords) ==> ExtractDictionaryKey(vocabulary, t) != Ok(k)) ==>
            r[k] == p[k])
      && (forall k :: k in p ==> p[k] <= r[k] && |r[k]| <= |p[k]| + 1)
      && (forall k :: k in p && Distinct(p[k]) ==> Distinct(r[k]))
  {
    var docId := DocumentId(page, catalog).value;
    var r := ConstructPostingsTable(p, page, vocabulary, catalog, stopwords, order).value;
    assert PostTerms(p, docId, vocabulary, order) == Ok(r);
    PostTermsContents(p, docId, vocabulary, order);
    forall k | k in p ensures p[k] <= r[k] && |r[k]| <= |p[k]| + 1 && (Distinct(p[k]) ==> Distinct(r[k])) {
      if forall t :: t in order ==> ExtractDictionaryKey(vocabulary, t) != Ok(k) {
      } else {
        var t :| t in order && ExtractDictionaryKey(vocabulary, t) == Ok(k);
      }
    }
  }

  /** The result of posting a page does not depend on the order in which its terms are visited. */
  lemma PostingOrderIrrelevant(p: PostingsTable, page: Page, vocabulary: map<int, string>, catalog: map<int, string>,
                               stopwords: set<string>, order1: seq<string>, order2: seq<string>)
    requires IsEnumeration(order1, ParagraphTerms(page, stopwords))
    requires IsEnumeration(order2, ParagraphTerms(page, stopwords))
    ensures ConstructPostingsTable(p, page, vocabulary, catalog, stopwords, order1).Ok? <==>
            ConstructPostingsTable(p, page, vocabulary, catalog, stopwords, order2).Ok?
    ensures ConstructPostingsTable(p, page, vocabulary, catalog, stopwords, order1).Ok? ==>
            ConstructPostingsTable(p, page, vocabulary, catalog, stopwords, order1) ==
            ConstructPostingsTable(p, page, vocabulary, catalog, stopwords, order2)
  {
    var r1 := ConstructPostingsTable(p, page, vocabulary, catalog, stopwords, order1);
    var r2 := ConstructPostingsTable(p, page, vocabulary, catalog, stopwords, order2);
    var terms := ParagraphTerms(page, stopwords);
    if r1.Ok? {
      ConstructPostingsTableContents(p, page, vocabulary, catalog, stopwords, order1);
      ConstructPostingsTableContents(p, page, vocabulary, catalog, stopwords, order2);
      forall k | k in p ensures r1.value[k] == r2.value[k] {
        if forall t :: t in terms ==> ExtractDictionaryKey(vocabulary, t) != Ok(k) {
        } else {
          var t :| t in terms && ExtractDictionaryKey(vocabulary, t) == Ok(k);
        }
      }
      assert r1.value == r2.value;
    }
  }

  /**
   For a term ID of an injective vocabulary, posting a page appends the document ID to the
   term's list exactly when the term is one of the page's paragraph terms.
   */
  lemma PostedList(q: PostingsTable, page: Page, vocabulary: map<int, string>, catalog: map<int, string>,
                   stopwords: set<string>, order: seq<string>, k: int)
    requires IsEnumeration(order, ParagraphTerms(page, stopwords))
    requires Injective(vocabulary)
    requires k in q && k in vocabulary
    requires ConstructPostingsTable(q, page, vocabulary, catalog, stopwords, order).Ok?
    ensures ConstructPostingsTable(q, page, vocabulary, catalog, stopwords, order).value[k] ==
            if vocabulary[k] in ParagraphTerms(page, stopwords)
            then AppendAbsent(q[k], DocumentId(page, catalog).value)
            else q[k]
  {
    ConstructPostingsTableContents(q, page, vocabulary, catalog, stopwords, order);
    LookupInverts(vocabulary, k);
  }

  /** The page has a title naming a file the catalog holds: its document ID resolves. */
  ghost predicate Identified(page: Page, catalog: map<int, string>) {
    DocumentName(page).Ok? && DocumentName(page).value in catalog.Values
  }

  /** The page's document ID resolves and all its paragraph terms can be posted. */
  ghost predicate Postable(page: Page, vocabulary: map<int, string>, catalog: map<int, string>,
                           stopwords: set<string>, keys: set<int>) {
    Identified(page, catalog) && TermsIndexed(ParagraphTerms(page, stopwords), vocabulary, keys)
  }

  /** The loop of lines 172-175: the pages are posted in listing order into one table. */
  function PostAll(base: PostingsTable, files: seq<File>, vocabulary: map<int, string>, catalog: map<int, string>,
                   stopwords: set<string>, orders: seq<seq<string>>): (r: Result<PostingsTable>)
    requires ValidOrders(files, stopwords, orders)
    ensures r.Ok? ==> r.value.Keys == base.Keys
    ensures r.Ok? ==> forall k :: k in base ==> base[k] <= r.value[k]
    ensures r.Ok? && (forall k :: k in base ==> Distinct(base[k])) ==> forall k :: k in r.value ==> Distinct(r.value[k])
    decreases |files|
  {
    if files == [] then Ok(base)
    else
      var n := |files| - 1;
      var q :- PostAll(base, files[..n], vocabulary, catalog, stopwords, orders[..n]);
      var r := ConstructPostingsTable(q, files[n].page, vocabulary, catalog, stopwords, orders[n]);
      if r.Ok? then
        ConstructPostingsTableContents(q, files[n].page, vocabulary, catalog, stopwords, orders[n]);
        r
      else
        r
  }

  /** Every listed page can be posted into a table with keys `keys`. */
  ghost predicate AllPostable(files: seq<File>, vocabulary: map<int, string>, catalog: map<int, string>,
                              stopwords: set<string>, keys: set<int>) {
    forall i :: 0 <= i < |files| ==> Postable(files[i].page, vocabulary, catalog, stopwords, keys)
  }

  /** Every listed page's paragraph terms are indexed for a table with keys `keys`. */
  ghost predicate AllTermsIndexed(files: seq<File>, vocabulary: map<int, string>, stopwords: set<string>, keys: set<int>) {
    forall i :: 0 <= i < |files| ==> TermsIndexed(ParagraphTerms(files[i].page, stopwords), vocabulary, keys)
  }

  /** All pages of a listing can be posted exactly when all but the last can and the last can. */
  lemma AllPostableSnoc(files: seq<File>, vocabulary: map<int, string>, catalog: map<int, string>,
                        stopwords: set<string>, keys: set<int>)
    requires |files| > 0
    ensures var n := |files| - 1;
      AllPostable(files, vocabulary, catalog, stopwords, keys) <==>
      AllPostable(files[..n], vocabulary, catalog, stopwords, keys) && Postable(files[n].page, vocabulary, catalog, stopwords, keys)
  {
    var n := |files| - 1;
    if AllPostable(files, vocabulary, catalog, stopwords, keys) {
      forall i | 0 <= i < n ensures Postable(files[..n][i].page, vocabulary, catalog, stopwords, keys) {
        assert files[..n][i] == files[i];
      }
    }
    if AllPostable(files[..n], vocabulary, catalog, stopwords, keys) && Postable(files[n].page, vocabulary, catalog, stopwords, keys) {
      forall i | 0 <= i < n ensures Postable(files[i].page, vocabulary, catalog, stopwords, keys) {
        assert files[..n][i] == files[i];
      }
    }
  }

  /** When all pages' terms are indexed, so are those of all but the last, and the last's. */
  lemma AllTermsIndexedSnoc(files: seq<File>, vocabulary: map<int, string>, stopwords: set<string>, keys: set<int>)
    requires |files| > 0
    requires AllTermsIndexed(files, vocabulary, stopwords, keys)
    ensures var n := |files| - 1;
      AllTermsIndexed(files[..n], vocabulary, stopwords, keys) &&
      TermsIndexed(ParagraphTerms(files[n].page, stopwords), vocabulary, keys)
  {
    var n := |files| - 1;
    assert forall i :: 0 <= i < n ==> files[..n][i] == files[i];
  }

  /** Posting the whole listing succeeds exactly when every page can be posted. */
  lemma {:induction false} PostAllSucceeds(base: PostingsTable, files: seq<File>, vocabulary: map<int, string>,
                                           catalog: map<int, string>, stopwords: set<string>, orders: seq<seq<string>>)
    requires ValidOrders(files, stopwords, orders)
    ensures PostAll(base, files, vocabulary, catalog, stopwords, orders).Ok? <==>
            AllPostable(files, vocabulary, catalog, stopwords, base.Keys)
    decreases |files|
  {
    if files != [] {
      var n := |files| - 1;
      ValidOrdersPrefix(files, stopwords, orders, n);
      PostAllSucceeds(base, files[..n], vocabulary, catalog, stopwords, orders[..n]);
      AllPostableSnoc(files, vocabulary, catalog, stopwords, base.Keys);
      var before := PostAll(base, files[..n], vocabulary, catalog, stopwords, orders[..n]);
      if before.Ok? {
        assert PostAll(base, files, vocabulary, catalog, stopwords, orders) ==
               ConstructPostingsTable(before.value, files[n].page, vocabulary, catalog, stopwords, orders[n]);
      }
    }
  }

  /**
   When every page's terms are indexed, posting the listing can fail only for a missing
   title or a file name the catalog does not hold, never for a missing postings key.
   */
  lemma {:induction false} PostAllFailures(base: PostingsTable, files: seq<File>, vocabulary: map<int, string>,
                                           catalog: map<int, string>, stopwords: set<string>, orders: seq<seq<string>>)
    requires ValidOrders(files, stopwords, orders)
    requires AllTermsIndexed(files, vocabulary, stopwords, base.Keys)
    ensures var r := PostAll(base, files, vocabulary, catalog, stopwords, orders);
      r.Err? ==> r.error == NoSuchElement || r.error == ValueNotFound
    decreases |files|
  {
    if files != [] {
      var n := |files| - 1;
      ValidOrdersPrefix(files, stopwords, orders, n);
      AllTermsIndexedSnoc(files, vocabulary, stopwords, base.Keys);
      PostAllFailures(base, files[..n], vocabulary, catalog, stopwords, orders[..n]);
      var before := PostAll(base, files[..n], vocabulary, catalog, stopwords, orders[..n]);
      if before.Ok? {
        assert PostAll(base, files, vocabulary, catalog, stopwords, orders) ==
               ConstructPostingsTable(before.value, files[n].page, vocabulary, catalog, stopwords, orders[n]);
      }
    }
  }

  /** Every listed page names a document of the catalog. */
  ghost predicate AllIdentified(files: seq<File>, catalog: map<int, string>) {
    forall i :: 0 <= i < |files| ==> Identified(files[i].page, catalog)
  }

  /** The IDs whose flag is set, in order. */
  function Pick(flags: seq<bool>, ids: seq<int>): (r: seq<int>)
    requires |ids| == |flags|
    ensures |r| <= |flags|
    decreases |flags|
  {
    if flags == [] then []
    else
      var n := |flags| - 1;
      Pick(flags[..n], ids[..n]) + (if flags[n] then [ids[n]] else [])
  }

  /** An ID is picked exactly when it sits at a flagged position. */
  lemma {:induction false} PickMembers(flags: seq<bool>, ids: seq<int>)
    requires |ids| == |flags|
    ensures forall d :: d in Pick(flags, ids) <==> exists i :: 0 <= i < |flags| && flags[i] && ids[i] == d
    decreases |flags|
  {
    if flags != [] {
      var n := |flags| - 1;
      PickMembers(flags[..n], ids[..n]);
      forall d ensures d in Pick(flags, ids) <==> exists i :: 0 <= i < |flags| && flags[i] && ids[i] == d {
        if d in Pick(flags[..n], ids[..n]) {
          var i :| 0 <= i < n && flags[..n][i] && ids[..n][i] == d;
          assert flags[i] && ids[i] == d;
        }
        if exists i :: 0 <= i < |flags| && flags[i] && ids[i] == d {
          var i :| 0 <= i < |flags| && flags[i] && ids[i] == d;
          if i < n {
            assert flags[..n][i] && ids[..n][i] == d;
          }
        }
      }
    }
  }

  /** The document ID of every listed page. */
  function DocumentIds(files: seq<File>, catalog: map<int, string>): (ids: seq<int>)
    requires AllIdentified(files, catalog)
    ensures |ids| == |files|
    ensures forall i :: 0 <= i < |files| ==> DocumentId(files[i].page, catalog) == Ok(ids[i])
  {
    seq(|files|, i requires 0 <= i < |files| => DocumentId(files[i].page, catalog).value)
  }

  /** For every listed page, whether `t` is one of its paragraph terms. */
  function Contains(files: seq<File>, stopwords: set<string>, t: string): (flags: seq<bool>)
    ensures |flags| == |files|
    ensures forall i :: 0 <= i < |files| ==> (flags[i] <==> t in ParagraphTerms(files[i].page, stopwords))
  {
    seq(|files|, i requires 0 <= i < |files| => t in ParagraphTerms(files[i].page, stopwords))
  }

  /** The IDs of the listed pages among whose paragraph terms `t` occurs, in listing order. */
  function Hits(files: seq<File>, catalog: map<int, string>, stopwords: set<string>, t: string): seq<int>
    requires AllIdentified(files, catalog)
  {
    Pick(Contains(files, stopwords, t), DocumentIds(files, catalog))
  }

  /** A document ID is a hit for `t` exactly when some listed page with that ID contains `t`. */
  lemma HitsMembers(files: seq<File>, catalog: map<int, string>, stopwords: set<string>, t: string)
    requires AllIdentified(files, catalog)
    ensures forall d :: d in Hits(files, catalog, stopwords, t) <==>
              exists i :: 0 <= i < |files| && t in ParagraphTerms(files[i].page, stopwords) && DocumentId(files[i].page, catalog) == Ok(d)
  {
    PickMembers(Contains(files, stopwords, t), DocumentIds(files, catalog));
  }

  /** Listing one more page adds its ID to the hits of its own terms only. */
  lemma HitsSnoc(files: seq<File>, catalog: map<int, string>, stopwords: set<string>, t: string)
    requires AllIdentified(files, catalog)
    requires |files| > 0
    ensures var n := |files| - 1;
      var last := files[n].page;
      Hits(files, catalog, stopwords, t) ==
      Hits(files[..n], catalog, stopwords, t) + (if t in ParagraphTerms(last, stopwords) then [DocumentId(last, catalog).value] else [])
  {
    var n := |files| - 1;
    assert Contains(files, stopwords, t)[..n] == Contains(files[..n], stopwords, t);
    assert DocumentIds(files, catalog)[..n] == DocumentIds(files[..n], catalog);
  }

  /**
   Starting from empty lists, after posting all pages the list of term `k` holds the IDs of
   the pages containing the term, each once, in the order of their first posting.
   */
  lemma {:induction false} PostAllContents(base: PostingsTable, files: seq<File>, vocabulary: map<int, string>,
                                           catalog: map<int, string>, stopwords: set<string>, orders: seq<seq<string>>)
    requires ValidOrders(files, stopwords, orders)
    requires Injective(vocabulary)
    requires forall k :: k in base ==> k in vocabulary && base[k] == []
    requires PostAll(base, files, vocabulary, catalog, stopwords, orders).Ok?
    ensures AllIdentified(files, catalog)
    ensures forall k :: k in base ==>
              PostAll(base, files, vocabulary, catalog, stopwords, orders).value[k] == Dedup(Hits(files, catalog, stopwords, vocabulary[k]))
    decreases |files|
  {
    if files != [] {
      var n := |files| - 1;
      var init := files[..n];
      var last := files[n].page;
      assert forall i :: 0 <= i < n ==> init[i] == files[i] && orders[..n][i] == orders[i];
      var q := PostAll(base, init, vocabulary, catalog, stopwords, orders[..n]).value;
      var r := PostAll(base, files, vocabulary, catalog, stopwords, orders).value;
      assert ConstructPostingsTable(q, last, vocabulary, catalog, stopwords, orders[n]) == Ok(r);
      PostAllSucceeds(base, files, vocabulary, catalog, stopwords, orders);
      PostAllContents(base, init, vocabulary, catalog, stopwords, orders[..n]);
      forall k | k in base ensures r[k] == Dedup(Hits(files, catalog, stopwords, vocabulary[k])) {
        var t := vocabulary[k];
        PostedList(q, last, vocabulary, catalog, stopwords, orders[n], k);
        var h := Hits(init, catalog, stopwords, t);
        HitsSnoc(files, catalog, stopwords, t);
        if t in ParagraphTerms(last, stopwords) {
          var d := DocumentId(last, catalog).value;
          assert Hits(files, catalog, stopwords, t) == h + [d];
          DedupSnoc(h, d);
        } else {
          assert Hits(files, catalog, stopwords, t) == h;
        }
      }
    }
  }

  /** `index_documents` over the same listing the postings pass walks. */
  function Catalog(files: seq<File>): (catalog: map<int, string>)
    ensures forall name :: name in catalog.Values <==> name in Names(files)
  {
    EnumerateValues(Names(files));
    IndexDocuments(Names(files))
  }

  /** Every page has a title, and the file name it claims is one of the listed names. */
  ghost predicate AllNamed(files: seq<File>) {
    forall i :: 0 <= i < |files| ==> DocumentName(files[i].page).Ok? && DocumentName(files[i].page).value in Names(files)
  }

  /**
   `create_postings_table`: number the listing, build the vocabulary, give every term an
   empty list and post every page in listing order. An empty listing yields the empty table
   the function starts from (line 171).
   */
  function CreatePostingsTable(files: seq<File>, stopwords: set<string>, orders: seq<seq<string>>): (r: Result<PostingsTable>)
    requires ValidOrders(files, stopwords, orders)
    ensures r.Ok? ==> AllHaveHeroes(files)
    ensures r.Ok? ==> r.value.Keys == RetrieveAllVocabulary(files, stopwords, orders).value.Keys
    ensures r.Ok? ==> forall k :: k in r.value ==> Distinct(r.value[k])
  {
    var catalog := Catalog(files);
    var vocabulary :- RetrieveAllVocabulary(files, stopwords, orders);
    var base := ConstructPostingsTableBase(map[], vocabulary);
    if files == [] then
      EmptyVocabulary(stopwords);
      Ok(map[])
    else
      assert base.Keys == vocabulary.Keys;
      assert forall k :: k in base ==> base[k] == [] && Distinct(base[k]);
      PostAll(base, files, vocabulary, catalog, stopwords, orders)
  }

  /**
   Building the postings table succeeds exactly when every page has a hero value and a
   title naming a listed file. The lookups of lines 149-150 never fail: a missing hero value
   or title is the IndexError of a selection, an unlisted name the IndexError of the catalog
   lookup, and there is no other failure.
   */
  lemma CreatePostingsTableSucceeds(files: seq<File>, stopwords: set<string>, orders: seq<seq<string>>)
    requires ValidOrders(files, stopwords, orders)
    ensures var r := CreatePostingsTable(files, stopwords, orders);
      && (r.Ok? <==> AllHaveHeroes(files) && AllNamed(files))
      && (!AllHaveHeroes(files) ==> r == Err(NoSuchElement))
      && (r.Err? ==> r.error == NoSuchElement || r.error == ValueNotFound)
  {
    if AllHaveHeroes(files) && files != [] {
      var catalog := Catalog(files);
      var vocabulary := RetrieveAllVocabulary(files, stopwords, orders).value;
      var base := ConstructPostingsTableBase(map[], vocabulary);
      assert CreatePostingsTable(files, stopwords, orders) == PostAll(base, files, vocabulary, catalog, stopwords, orders);
      BuiltVocabularyIndexesTerms(files, stopwords, orders);
      assert base.Keys == vocabulary.Keys;
      PostableIffNamed(files, vocabulary, stopwords, base.Keys);
      PostAllSucceeds(base, files, vocabulary, catalog, stopwords, orders);
      PostAllFailures(base, files, vocabulary, catalog, stopwords, orders);
    }
  }

  /**
   Lines 140-145 repeat lines 70-75, so every term the postings pass extracts from a page is a
   value of the vocabulary built from the same listing (the lookup of line 149 succeeds) and
   its ID is a vocabulary key (the subscript of line 150 succeeds).
   */
  lemma BuiltVocabularyIndexesTerms(files: seq<File>, stopwords: set<string>, orders: seq<seq<string>>)
    requires ValidOrders(files, stopwords, orders)
    requires AllHaveHeroes(files)
    ensures var vocabulary := RetrieveAllVocabulary(files, stopwords, orders).value;
      AllTermsIndexed(files, vocabulary, stopwords, vocabulary.Keys)
  {
    var vocabulary := RetrieveAllVocabulary(files, stopwords, orders).value;
    VocabularyValues(files, stopwords, orders);
    forall i | 0 <= i < |files| ensures TermsIndexed(ParagraphTerms(files[i].page, stopwords), vocabulary, vocabulary.Keys) {
      forall t | t in ParagraphTerms(files[i].page, stopwords)
        ensures t in vocabulary.Values && ExtractDictionaryKey(vocabulary, t).value in vocabulary.Keys
      {
        assert InPage(files[i].page, stopwords, t);
      }
    }
  }

  /** Once every page's terms are indexed, a page can be posted exactly when it names a listed file. */
  lemma PostableIffNamed(files: seq<File>, vocabulary: map<int, string>, stopwords: set<string>, keys: set<int>)
    requires AllTermsIndexed(files, vocabulary, stopwords, keys)
    ensures AllPostable(files, vocabulary, Catalog(files), stopwords, keys) <==> AllNamed(files)
  {
    var catalog := Catalog(files);
    forall i | 0 <= i < |files|
      ensures Postable(files[i].page, vocabulary, catalog, stopwords, keys) <==>
              DocumentName(files[i].page).Ok? && DocumentName(files[i].page).value in Names(files)
    {
    }
  }

  /**
   In a built table the list of term `k` holds, once each and in listing order of their first
   page, the IDs of the pages among whose paragraph terms the term occurs.
   */
  lemma CreatePostingsTableContents(files: seq<File>, stopwords: set<string>, orders: seq<seq<string>>)
    requires ValidOrders(files, stopwords, orders)
    requires CreatePostingsTable(files, stopwords, orders).Ok?
    ensures AllIdentified(files, Catalog(files))
    ensures var vocabulary := RetrieveAllVocabulary(files, stopwords, orders).value;
      var r := CreatePostingsTable(files, stopwords, orders).value;
      forall k :: k in r ==> r[k] == Dedup(Hits(files, Catalog(files), stopwords, vocabulary[k]))
  {
    if files != [] {
      var catalog := Catalog(files);
      var vocabulary := RetrieveAllVocabulary(files, stopwords, orders).value;
      var base := ConstructPostingsTableBase(map[], vocabulary);
      assert CreatePostingsTable(files, stopwords, orders) == PostAll(base, files, vocabulary, catalog, stopwords, orders);
      PostAllContents(base, files, vocabulary, catalog, stopwords, orders);
    }
  }

  /** The list of one term of a built table. */
  lemma PostingsList(files: seq<File>, stopwords: set<string>, orders: seq<seq<string>>, k: int)
    requires ValidOrders(files, stopwords, orders)
    requires CreatePostingsTable(files, stopwords, orders).Ok?
    requires k in CreatePostingsTable(files, stopwords, orders).value
    ensures AllIdentified(files, Catalog(files))
    ensures CreatePostingsTable(files, stopwords, orders).value[k] ==
            Dedup(Hits(files, Catalog(files), stopwords, RetrieveAllVocabulary(files, stopwords, orders).value[k]))
  {
    CreatePostingsTableContents(files, stopwords, orders);
  }

  /**
   A document ID is posted under term `k` exactly when some listed page with that ID has the
   term among its paragraph terms.
   */
  lemma PostingsMembers(files: seq<File>, stopwords: set<string>, orders: seq<seq<string>>, k: int, d: int)
    requires ValidOrders(files, stopwords, orders)
    requires CreatePostingsTable(files, stopwords, orders).Ok?
    requires k in CreatePostingsTable(files, stopwords, orders).value
    ensures var vocabulary := RetrieveAllVocabulary(files, stopwords, orders).value;
      d in CreatePostingsTable(files, stopwords, orders).value[k] <==>
      exists i :: 0 <= i < |files| && vocabulary[k] in ParagraphTerms(files[i].page, stopwords)
                  && DocumentId(files[i].page, Catalog(files)) == Ok(d)
  {
    var vocabulary := RetrieveAllVocabulary(files, stopwords, orders).value;
    CreatePostingsTableContents(files, stopwords, orders);
    HitsMembers(files, Catalog(files), stopwords, vocabulary[k]);
  }

  /**
   The hero term appended by the vocabulary pass gets a postings list, but a page is posted
   under it only for occurring among that page's paragraph terms: a hero name that no
   paragraph yields keeps an empty list.
   */
  lemma HeroTermNotPosted(files: seq<File>, stopwords: set<string>, orders: seq<seq<string>>, j: int, k: int)
    requires ValidOrders(files, stopwords, orders)
    requires CreatePostingsTable(files, stopwords, orders).Ok?
    requires 0 <= j < |files|
    requires k in CreatePostingsTable(files, stopwords, orders).value
    requires Ok(RetrieveAllVocabulary(files, stopwords, orders).value[k]) == HeroTerm(files[j].page)
    requires forall i :: 0 <= i < |files| ==> HeroTerm(files[j].page).value !in ParagraphTerms(files[i].page, stopwords)
    ensures CreatePostingsTable(files, stopwords, orders).value[k] == []
  {
    UnpostedTerm(files, stopwords, orders, k, HeroTerm(files[j].page).value);
  }

  /** A vocabulary term that no page's paragraphs yield keeps an empty list. */
  lemma UnpostedTerm(files: seq<File>, stopwords: set<string>, orders: seq<seq<string>>, k: int, t: string)
    requires ValidOrders(files, stopwords, orders)
    requires CreatePostingsTable(files, stopwords, orders).Ok?
    requires k in CreatePostingsTable(files, stopwords, orders).value
    requires RetrieveAllVocabulary(files, stopwords, orders).value[k] == t
    requires forall i :: 0 <= i < |files| ==> t !in ParagraphTerms(files[i].page, stopwords)
    ensures CreatePostingsTable(files, stopwords, orders).value[k] == []
  {
    PostingsList(files, stopwords, orders, k);
    NoHits(files, Catalog(files), stopwords, t);
  }

  /** A term no listed page contains has no hits. */
  lemma NoHits(files: seq<File>, catalog: map<int, string>, stopwords: set<string>, t: string)
    requires AllIdentified(files, catalog)
    requires forall i :: 0 <= i < |files| ==> t !in ParagraphTerms(files[i].page, stopwords)
    ensures Hits(files, catalog, stopwords, t) == []
    ensures Dedup(Hits(files, catalog, stopwords, t)) == []
  {
    PickNone(Contains(files, stopwords, t), DocumentIds(files, catalog));
  }

  /** With no flag set nothing is picked. */
  lemma {:induction false} PickNone(flags: seq<bool>, ids: seq<int>)
    requires |ids| == |flags|
    requires forall i :: 0 <= i < |flags| ==> !flags[i]
    ensures Pick(flags, ids) == []
    decreases |flags|
  {
    if flags != [] {
      var n := |flags| - 1;
      PickNone(flags[..n], ids[..n]);
    }
  }

  /**
   With the catalog numbering the listing, a page's document ID is the first listing position
   of the file name its title gives.
   */
  lemma DocumentIdIsListingPosition(files: seq<File>, i: int)
    requires 0 <= i < |files|
    requires DocumentName(files[i].page).Ok? && DocumentName(files[i].page).value in Names(files)
    ensures DocumentId(files[i].page, Catalog(files)) == Ok(FirstIndex(Names(files), DocumentName(files[i].page).value))
  {
    CatalogLookup(Names(files), DocumentName(files[i].page).value);
  }
}
