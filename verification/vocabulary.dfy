/**
 The vocabulary builder: the terms of one page, and the numbered, duplicate-free vocabulary
 of the whole directory.
 */
module Vocabulary {
  import opened Results
  import opened Text
  import opened Tables
  import opened Pages

  /** One paragraph's words after punctuation and digits are deleted, each lower-cased. */
  function ParagraphWords(p: string): seq<string>
  {
    LowerAll(Words(CleanDigits(CleanText(p))))
  }

  /** The words of all paragraphs of a page, paragraph by paragraph. */
  function PageWords(page: Page): seq<string>
  {
    Flatten(seq(|page.paragraphs|, i requires 0 <= i < |page.paragraphs| => ParagraphWords(page.paragraphs[i])))
  }

  /** A word of the page is a word of one of its paragraphs. */
  lemma PageWordsMembers(page: Page)
    ensures forall w :: w in PageWords(page) <==>
              exists i :: 0 <= i < |page.paragraphs| && w in ParagraphWords(page.paragraphs[i])
  {
    var perParagraph := seq(|page.paragraphs|, i requires 0 <= i < |page.paragraphs| =>
                              ParagraphWords(page.paragraphs[i]));
    assert PageWords(page) == Flatten(perParagraph);
    forall w ensures w in PageWords(page) <==>
                       exists i :: 0 <= i < |page.paragraphs| && w in ParagraphWords(page.paragraphs[i])
    {
      if w in PageWords(page) {
        var i :| 0 <= i < |perParagraph| && w in perParagraph[i];
        assert perParagraph[i] == ParagraphWords(page.paragraphs[i]);
      }
      if exists i :: 0 <= i < |page.paragraphs| && w in ParagraphWords(page.paragraphs[i]) {
        var i :| 0 <= i < |page.paragraphs| && w in ParagraphWords(page.paragraphs[i]);
        assert perParagraph[i] == ParagraphWords(page.paragraphs[i]);
      }
    }
  }

  /** A normalised word: non-empty, with no whitespace, punctuation, digit or upper-case letter. */
  predicate IsTerm(t: string) {
    t != [] && forall c :: c in t ==> !IsSpace(c) && !IsPunctuation(c) && !IsDigit(c) && !IsUpper(c)
  }

  /** Lower-casing a cleaned, whitespace-free, non-empty word yields a normalised term. */
  lemma LowerWordIsTerm(v: string)
    requires v != []
    requires forall c :: c in v ==> !IsSpace(c) && !IsPunctuation(c) && !IsDigit(c)
    ensures IsTerm(Lower(v))
  {
    var w := Lower(v);
    forall c | c in w ensures !IsSpace(c) && !IsPunctuation(c) && !IsDigit(c) && !IsUpper(c) {
      var k :| 0 <= k < |w| && w[k] == c;
      assert v[k] in v;
    }
  }

  /** Every word the paragraph pipeline produces is normalised. */
  lemma ParagraphWordsAreTerms(p: string)
    ensures forall w :: w in ParagraphWords(p) ==> IsTerm(w)
  {
    var cleaned := CleanDigits(CleanText(p));
    var words := Words(cleaned);
    CharacterClassesMatchConstants();
    forall w | w in ParagraphWords(p) ensures IsTerm(w) {
      var i :| 0 <= i < |words| && ParagraphWords(p)[i] == w;
      LowerWordIsTerm(words[i]);
    }
  }

  /**
   Lines 70-75 (repeated at 140-145): the set of lower-cased words of the cleaned paragraphs,
   stopwords removed.
   */
  function ParagraphTerms(page: Page, stopwords: set<string>): (terms: set<string>)
    ensures forall t :: t in terms ==> IsTerm(t) && t !in stopwords
    ensures forall t :: t in terms <==>
              (t !in stopwords && exists i :: 0 <= i < |page.paragraphs| && t in ParagraphWords(page.paragraphs[i]))
  {
    forall i | 0 <= i < |page.paragraphs| {
      ParagraphWordsAreTerms(page.paragraphs[i]);
    }
    PageWordsMembers(page);
    set w | w in PageWords(page) && w !in stopwords
  }

  /** Lines 68-69 and 76: the prepared hero name, lower-cased; fails when the page has no value. */
  function HeroTerm(page: Page): (r: Result<string>)
    ensures r.Ok? <==> |page.heroValues| > 0
    ensures r.Err? ==> r.error == NoSuchElement
    ensures r.Ok? ==> forall c :: c in r.value ==> c != ' ' && !IsPunctuation(c) && !IsDigit(c) && !IsUpper(c)
  {
    if page.heroValues == [] then Err(NoSuchElement)
    else
      var prepared := PrepareHeroName(page.heroValues[0]);
      var lowered := Lower(prepared);
      assert forall k :: 0 <= k < |prepared| ==> prepared[k] in prepared;
      Ok(lowered)
  }

  /** `order` lists the elements of `terms`, each once: one possible iteration order of a set. */
  ghost predicate IsEnumeration(order: seq<string>, terms: set<string>) {
    Distinct(order) && forall t :: t in order <==> t in terms
  }

  /**
   `index_vocabulary`: the page's paragraph terms in the order the set yields them, then the
   hero term, which is neither stopword-filtered nor checked for duplicates.
   */
  function IndexVocabulary(page: Page, stopwords: set<string>, order: seq<string>): (r: Result<seq<string>>)
    requires IsEnumeration(order, ParagraphTerms(page, stopwords))
    ensures r.Ok? <==> |page.heroValues| > 0
    ensures r.Err? ==> r.error == NoSuchElement
    ensures r.Ok? ==> |r.value| == |order| + 1 && Ok(r.value[|order|]) == HeroTerm(page)
    ensures r.Ok? ==> Distinct(r.value[..|order|])
    ensures r.Ok? ==> forall t :: t in r.value[..|order|] <==> t in ParagraphTerms(page, stopwords)
  {
    var hero :- HeroTerm(page);
    var terms := order + [hero];
    assert terms[..|order|] == order;
    Ok(terms)
  }

  /** The per-page term orders are enumerations of the pages' term sets. */
  ghost predicate ValidOrders(files: seq<File>, stopwords: set<string>, orders: seq<seq<string>>) {
    && |orders| == |files|
    && forall i :: 0 <= i < |files| ==> IsEnumeration(orders[i], ParagraphTerms(files[i].page, stopwords))
  }

  /** The orders of a prefix of the listing are valid for that prefix. */
  lemma ValidOrdersPrefix(files: seq<File>, stopwords: set<string>, orders: seq<seq<string>>, n: nat)
    requires ValidOrders(files, stopwords, orders)
    requires n <= |files|
    ensures ValidOrders(files[..n], stopwords, orders[..n])
  {
    forall i | 0 <= i < n
      ensures IsEnumeration(orders[..n][i], ParagraphTerms(files[..n][i].page, stopwords))
    {
      assert orders[..n][i] == orders[i] && files[..n][i] == files[i];
    }
  }

  /** Every page carries a hero value. */
  predicate AllHaveHeroes(files: seq<File>) {
    forall i :: 0 <= i < |files| ==> |files[i].page.heroValues| > 0
  }

  /**
   The loop of lines 89-92: each page's term list, in directory order. The loop stops at the
   first page without a hero value; every such failure is the same error.
   */
  function TermLists(files: seq<File>, stopwords: set<string>, orders: seq<seq<string>>): (r: Result<seq<seq<string>>>)
    requires ValidOrders(files, stopwords, orders)
    ensures r.Ok? <==> AllHaveHeroes(files)
    ensures r.Err? ==> r.error == NoSuchElement
    ensures r.Ok? ==> |r.value| == |files|
    ensures r.Ok? ==> forall i :: 0 <= i < |files| ==> IndexVocabulary(files[i].page, stopwords, orders[i]) == Ok(r.value[i])
  {
    if !AllHaveHeroes(files) then Err(NoSuchElement)
    else
      Ok(seq(|files|, i requires 0 <= i < |files| => IndexVocabulary(files[i].page, stopwords, orders[i]).value))
  }

  /** A page's term list holds its paragraph terms and its hero term, and nothing else. */
  lemma TermListMembers(page: Page, stopwords: set<string>, order: seq<string>)
    requires IsEnumeration(order, ParagraphTerms(page, stopwords))
    requires |page.heroValues| > 0
    ensures forall t :: t in IndexVocabulary(page, stopwords, order).value <==>
              (t in ParagraphTerms(page, stopwords) || HeroTerm(page) == Ok(t))
  {
    var list := IndexVocabulary(page, stopwords, order).value;
    assert list == list[..|order|] + [list[|order|]];
  }

  /**
   `retrieve_all_vocabulary`: all term lists concatenated, duplicates dropped keeping the first
   occurrence (line 94), and numbered from 0 (line 95).
   */
  function RetrieveAllVocabulary(files: seq<File>, stopwords: set<string>, orders: seq<seq<string>>): (r: Result<map<int, string>>)
    requires ValidOrders(files, stopwords, orders)
    ensures r.Ok? <==> AllHaveHeroes(files)
    ensures r.Err? ==> r.error == NoSuchElement
    ensures r.Ok? ==> Contiguous(r.value) && Injective(r.value)
  {
    var lists :- TermLists(files, stopwords, orders);
    var distinct := Dedup(Flatten(lists));
    EnumerateDistinct(distinct);
    Ok(Enumerate(distinct))
  }

  /** An empty listing has an empty vocabulary. */
  lemma EmptyVocabulary(stopwords: set<string>)
    ensures RetrieveAllVocabulary([], stopwords, []) == Ok(map[])
  {
    var lists := TermLists([], stopwords, []).value;
    assert lists == [];
    assert Flatten(lists) == [];
    assert Dedup(Flatten(lists)) == [];
  }

  /** The vocabulary's terms are the pages' paragraph terms together with their hero terms. */
  lemma VocabularyValues(files: seq<File>, stopwords: set<string>, orders: seq<seq<string>>)
    requires ValidOrders(files, stopwords, orders)
    requires AllHaveHeroes(files)
    ensures forall t :: t in RetrieveAllVocabulary(files, stopwords, orders).value.Values <==>
              exists i :: 0 <= i < |files| && InPage(files[i].page, stopwords, t)
  {
    var lists := TermLists(files, stopwords, orders).value;
    var all := Flatten(lists);
    EnumerateValues(Dedup(all));
    forall i | 0 <= i < |files| ensures forall t :: t in lists[i] <==> InPage(files[i].page, stopwords, t) {
      TermListMembers(files[i].page, stopwords, orders[i]);
    }
  }

  /** Every page's hero term is a vocabulary term, whether or not a paragraph yields it. */
  lemma HeroTermInVocabulary(files: seq<File>, stopwords: set<string>, orders: seq<seq<string>>, j: int)
    requires ValidOrders(files, stopwords, orders)
    requires AllHaveHeroes(files)
    requires 0 <= j < |files|
    ensures HeroTerm(files[j].page).value in RetrieveAllVocabulary(files, stopwords, orders).value.Values
  {
    VocabularyValues(files, stopwords, orders);
    assert InPage(files[j].page, stopwords, HeroTerm(files[j].page).value);
  }

  /** `t` is one of the terms the vocabulary pass collects from `page`. */
  predicate InPage(page: Page, stopwords: set<string>, t: string) {
    t in ParagraphTerms(page, stopwords) || HeroTerm(page) == Ok(t)
  }

  /**
   Term IDs follow first occurrence in the concatenated term lists: a lower ID means an
   earlier first occurrence, and conversely.
   */
  lemma VocabularyFollowsFirstOccurrence(files: seq<File>, stopwords: set<string>, orders: seq<seq<string>>)
    requires ValidOrders(files, stopwords, orders)
    requires AllHaveHeroes(files)
    ensures var all := Flatten(TermLists(files, stopwords, orders).value);
      var vocabulary := RetrieveAllVocabulary(files, stopwords, orders).value;
      && (forall k :: k in vocabulary ==> vocabulary[k] in all)
      && (forall j, k :: j in vocabulary && k in vocabulary && vocabulary[j] in all && vocabulary[k] in all ==>
            (j < k <==> FirstIndex(all, vocabulary[j]) < FirstIndex(all, vocabulary[k])))
  {
    var all := Flatten(TermLists(files, stopwords, orders).value);
    var distinct := Dedup(all);
    var vocabulary := RetrieveAllVocabulary(files, stopwords, orders).value;
    assert vocabulary == Enumerate(distinct);
    forall j, k | j in vocabulary && k in vocabulary
      ensures j < k <==> FirstIndex(all, vocabulary[j]) < FirstIndex(all, vocabulary[k])
    {
      assert vocabulary[j] == distinct[j] && vocabulary[k] == distinct[k];
      if k < j {
        assert FirstIndex(all, distinct[k]) < FirstIndex(all, distinct[j]);
      }
    }
  }
}
