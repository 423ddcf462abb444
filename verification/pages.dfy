/**
 A parsed HTML page, reduced to the texts the indexer selects from it, and the operations
 that read a single page: the hero name, the document title and the hero information.
 */
module Pages {
  import opened Results
  import opened Text
  import opened Tables

  /**
   The texts of the selected elements of one page, in document order: every `<p>`, every
   `.pi-data-label`, every `.pi-data-value` and every `.page-header__title`.
   */
  datatype Page = Page(
    paragraphs: seq<string>,
    heroLabels: seq<string>,
    heroValues: seq<string>,
    titles: seq<string>)

  /** One entry of the document directory: its file name and its parsed contents. */
  datatype File = File(name: string, page: Page)

  /** The directory listing: the file names in listing order. */
  function Names(files: seq<File>): (names: seq<string>)
    ensures |names| == |files|
    ensures forall i :: 0 <= i < |files| ==> names[i] == files[i].name
  {
    seq(|files|, i requires 0 <= i < |files| => files[i].name)
  }

  /**
   `index_documents` (line 20): the catalog numbers the directory listing from 0, so document
   ID `i` names the `i`-th listed file.
   */
  function IndexDocuments(listing: seq<string>): (catalog: map<int, string>)
    ensures forall k :: k in catalog <==> 0 <= k < |listing|
    ensures forall i :: 0 <= i < |listing| ==> catalog[i] == listing[i]
  {
    Enumerate(listing)
  }

  /**
   Looking a listed name up in the catalog finds its first listing position; when the listing
   has no repeated name (as a directory listing has not), that is its only position.
   */
  lemma CatalogLookup(listing: seq<string>, name: string)
    ensures ExtractDictionaryKey(IndexDocuments(listing), name).Ok? <==> name in listing
    ensures name in listing ==> ExtractDictionaryKey(IndexDocuments(listing), name) == Ok(FirstIndex(listing, name))
    ensures Distinct(listing) ==> forall i :: 0 <= i < |listing| ==>
              ExtractDictionaryKey(IndexDocuments(listing), listing[i]) == Ok(i)
  {
    LookupInEnumerate(listing, name);
    if Distinct(listing) {
      forall i | 0 <= i < |listing| ensures ExtractDictionaryKey(IndexDocuments(listing), listing[i]) == Ok(i) {
        EnumerateDistinct(listing);
        LookupInverts(IndexDocuments(listing), i);
      }
    }
  }

  /** The hero name with spaces and hyphens removed, before it is truncated. */
  function Squeeze(name: string): string
  {
    Remove(Remove(name, IsBlank), IsHyphen)
  }

  /**
   `prepare_hero_name`: removes spaces and hyphens, keeps what precedes the first `[` (or,
   when there is no `[`, the first `(`), then deletes punctuation and digits. It does not
   lower-case.
   */
  function PrepareHeroName(name: string): (r: string)
    ensures forall c :: c in r ==> c != ' ' && c != '-' && !IsPunctuation(c) && !IsDigit(c)
  {
    var squeezed := Squeeze(name);
    var truncated :=
      if '[' in squeezed then BeforeFirst(squeezed, '[')
      else if '(' in squeezed then BeforeFirst(squeezed, '(')
      else squeezed;
    assert forall c :: c in squeezed ==> c != ' ' by {
      forall c | c in Remove(name, IsBlank) ensures c != ' ' {
        assert !IsBlank(c);
      }
    }
    assert truncated <= squeezed;
    assert forall c :: c in truncated ==> c in squeezed by {
      forall c | c in truncated ensures c in squeezed {
        var i :| 0 <= i < |truncated| && truncated[i] == c;
        assert squeezed[i] == c;
      }
    }
    CharacterClassesMatchConstants();
    CleanDigits(CleanText(truncated))
  }

  /** Both cleaners applied together: what `prepare_hero_name` does after truncating. */
  function Clean(s: string): string
  {
    Remove(s, IsPunctuationOrDigit)
  }

  /**
   Where the hero name is cut: at the first `[` if there is one, wherever a `(` occurs;
   otherwise at the first `(`; otherwise nowhere.
   */
  lemma PrepareHeroNameTruncates(name: string)
    ensures var t := Squeeze(name);
      && (forall k :: 0 <= k < |t| && t[k] == '[' && '[' !in t[..k] ==>
            PrepareHeroName(name) == Clean(t[..k]))
      && ('[' !in t ==> forall k :: 0 <= k < |t| && t[k] == '(' && '(' !in t[..k] ==>
            PrepareHeroName(name) == Clean(t[..k]))
      && ('[' !in t && '(' !in t ==> PrepareHeroName(name) == Clean(t))
  {
    var t := Squeeze(name);
    forall k | 0 <= k < |t| && t[k] == '[' && '[' !in t[..k]
      ensures PrepareHeroName(name) == Clean(t[..k])
    {
      FirstOccurrenceIsBeforeFirst(t, '[', k);
      CleanersCommute(t[..k]);
    }
    forall k | '[' !in t && 0 <= k < |t| && t[k] == '(' && '(' !in t[..k]
      ensures PrepareHeroName(name) == Clean(t[..k])
    {
      FirstOccurrenceIsBeforeFirst(t, '(', k);
      CleanersCommute(t[..k]);
    }
    var truncated :=
      if '[' in t then BeforeFirst(t, '[')
      else if '(' in t then BeforeFirst(t, '(')
      else t;
    CleanersCommute(truncated);
  }

  /** A prefix ending just before the first `c` is what `BeforeFirst` returns. */
  lemma FirstOccurrenceIsBeforeFirst(s: string, c: char, k: int)
    requires 0 <= k < |s| && s[k] == c && c !in s[..k]
    ensures BeforeFirst(s, c) == s[..k]
  {
    var r := BeforeFirst(s, c);
    assert |r| == k;
  }

  /** A name of letters (and other characters none of the steps touch) is prepared to itself. */
  lemma PrepareHeroNameKeepsPlainName(name: string)
    requires forall c :: c in name ==> !IsBlank(c) && !IsHyphen(c) && !IsPunctuationOrDigit(c)
    ensures PrepareHeroName(name) == name
  {
    RemoveKeepsClean(name, IsBlank);
    RemoveKeepsClean(name, IsHyphen);
    assert Squeeze(name) == name;
    assert IsPunctuation('[') && IsPunctuation('(');
    assert '[' !in name && '(' !in name;
    RemoveKeepsClean(name, IsPunctuationOrDigit);
    CleanersCommute(name);
  }

  /** A prepared name is already prepared: preparing it again changes nothing. */
  lemma PrepareHeroNameIdempotent(name: string)
    ensures PrepareHeroName(PrepareHeroName(name)) == PrepareHeroName(name)
  {
    var r := PrepareHeroName(name);
    RemoveKeepsClean(r, IsBlank);
    RemoveKeepsClean(r, IsHyphen);
    assert Squeeze(r) == r;
    assert '[' !in r && '(' !in r;
    RemoveKeepsClean(r, IsPunctuationOrDigit);
    CleanersCommute(r);
  }

  /**
   `extract_document_title`: the first title, with every space turned into `_` and then the
   remaining whitespace stripped from both ends; fails when the page has no title.
   */
  function ExtractDocumentTitle(page: Page): (r: Result<string>)
    ensures r.Ok? <==> |page.titles| > 0
    ensures r.Err? ==> r.error == NoSuchElement
    ensures r.Ok? ==> ' ' !in r.value
    ensures r.Ok? ==> r.value == [] || (!IsSpace(r.value[0]) && !IsSpace(r.value[|r.value| - 1]))
    ensures r.Ok? ==> |r.value| <= |page.titles[0]|
  {
    if page.titles == [] then Err(NoSuchElement)
    else Ok(Strip(Translate(page.titles[0], ' ', '_')))
  }

  /** The title keeps its characters in place: only spaces change, and only whitespace is cut. */
  lemma TitleIsUnderscoredSlice(page: Page)
    requires |page.titles| > 0
    ensures var raw := page.titles[0];
      var t := ExtractDocumentTitle(page).value;
      var i := LeadingSpace(Translate(raw, ' ', '_'));
      && i + |t| <= |raw|
      && (forall k :: 0 <= k < |t| ==> t[k] == (if raw[i + k] == ' ' then '_' else raw[i + k]))
      && (forall k :: 0 <= k < i ==> IsSpace(raw[k]) && raw[k] != ' ')
      && (forall k :: i + |t| <= k < |raw| ==> IsSpace(raw[k]) && raw[k] != ' ')
  {
    UnderscoredSlice(page.titles[0]);
  }

  /** Stripping a string whose spaces became underscores keeps a slice of it, cut only at other whitespace. */
  lemma UnderscoredSlice(raw: string)
    ensures var u := Translate(raw, ' ', '_');
      var t := Strip(u);
      var i := LeadingSpace(u);
      && i + |t| <= |raw|
      && (forall k :: 0 <= k < |t| ==> t[k] == (if raw[i + k] == ' ' then '_' else raw[i + k]))
      && (forall k :: 0 <= k < i ==> IsSpace(raw[k]) && raw[k] != ' ')
      && (forall k :: i + |t| <= k < |raw| ==> IsSpace(raw[k]) && raw[k] != ' ')
  {
    UnderscoredSliceKeeps(raw);
    UnderscoredSliceCutsFront(raw);
    UnderscoredSliceCutsBack(raw);
  }

  /** Inside the kept slice, only spaces change, and they become underscores. */
  lemma UnderscoredSliceKeeps(raw: string)
    ensures var u := Translate(raw, ' ', '_');
      var t := Strip(u);
      var i := LeadingSpace(u);
      && i + |t| <= |raw|
      && (forall k :: 0 <= k < |t| ==> t[k] == (if raw[i + k] == ' ' then '_' else raw[i + k]))
  {
    var u := Translate(raw, ' ', '_');
    var t := Strip(u);
    var i := LeadingSpace(u);
    forall k | 0 <= k < |t|
      ensures t[k] == (if raw[i + k] == ' ' then '_' else raw[i + k])
    {
      assert t[k] == u[i + k];
    }
  }

  /** Before the kept slice there is only whitespace other than the space. */
  lemma UnderscoredSliceCutsFront(raw: string)
    ensures var i := LeadingSpace(Translate(raw, ' ', '_'));
      forall k :: 0 <= k < i ==> IsSpace(raw[k]) && raw[k] != ' '
  {
    var u := Translate(raw, ' ', '_');
    var i := LeadingSpace(u);
    assert !IsSpace('_');
    forall k | 0 <= k < i ensures IsSpace(raw[k]) && raw[k] != ' ' {
      assert IsSpace(u[k]);
    }
  }

  /** After the kept slice there is only whitespace other than the space. */
  lemma UnderscoredSliceCutsBack(raw: string)
    ensures var u := Translate(raw, ' ', '_');
      var t := Strip(u);
      var i := LeadingSpace(u);
      forall k :: i + |t| <= k < |raw| ==> IsSpace(raw[k]) && raw[k] != ' '
  {
    var u := Translate(raw, ' ', '_');
    var t := Strip(u);
    var i := LeadingSpace(u);
    assert !IsSpace('_');
    forall k | i + |t| <= k < |raw| ensures IsSpace(raw[k]) && raw[k] != ' ' {
      assert IsSpace(u[k]);
    }
  }

  /** The file name a page claims for itself: its title with `.html` appended. */
  function DocumentName(page: Page): (r: Result<string>)
    ensures r.Ok? <==> |page.titles| > 0
    ensures r.Err? ==> r.error == NoSuchElement
    ensures r.Ok? ==> |r.value| >= 5 && r.value[|r.value| - 5..] == ".html"
    ensures r.Ok? ==> r.value[..|r.value| - 5] == ExtractDocumentTitle(page).value
  {
    var title :- ExtractDocumentTitle(page);
    Ok(title + ".html")
  }

  function Min(a: int, b: int): int {
    if a < b then a else b
  }

  /**
   `dict(zip(keys, values))`: pairs keys and values by position up to the shorter list; a
   later pair with the same key overwrites the value of an earlier one.
   */
  function ZipToMap(keys: seq<string>, values: seq<string>): (m: map<string, string>)
    ensures forall k :: k in m <==> exists i :: 0 <= i < Min(|keys|, |values|) && keys[i] == k
    ensures forall i :: 0 <= i < Min(|keys|, |values|)
              && (forall j :: i < j < Min(|keys|, |values|) ==> keys[j] != keys[i])
              ==> m[keys[i]] == values[i]
  {
    ZipPrefix(keys, values, Min(|keys|, |values|))
  }

  /** The map built from the first `n` pairs. */
  function ZipPrefix(keys: seq<string>, values: seq<string>, n: nat): (m: map<string, string>)
    requires n <= |keys| && n <= |values|
    ensures forall k :: k in m <==> exists i :: 0 <= i < n && keys[i] == k
    ensures forall i :: 0 <= i < n && (forall j :: i < j < n ==> keys[j] != keys[i]) ==> m[keys[i]] == values[i]
  {
    if n == 0 then map[]
    else ZipPrefix(keys, values, n - 1)[keys[n - 1] := values[n - 1]]
  }

  /** `construct_hero_information`: the page's labels paired with its values. */
  function ConstructHeroInformation(page: Page): (info: map<string, string>)
    ensures forall k :: k in info <==>
              exists i :: 0 <= i < |page.heroLabels| && i < |page.heroValues| && page.heroLabels[i] == k
    ensures forall i :: 0 <= i < |page.heroLabels| && i < |page.heroValues|
              && (forall j :: i < j < |page.heroLabels| && j < |page.heroValues| ==> page.heroLabels[j] != page.heroLabels[i])
              ==> info[page.heroLabels[i]] == page.heroValues[i]
  {
    ZipToMap(page.heroLabels, page.heroValues)
  }
}
