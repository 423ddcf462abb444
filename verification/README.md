# Hero document index — Dafny model

A model of the indexing core of `index.py`, a small inverted-index builder over a directory
of superhero wiki pages. The program

- numbers the files of the directory (the *document table*, or catalog);
- extracts from each page the lower-cased words of its paragraphs, with punctuation, digits
  and stopwords removed, and appends the page's prepared hero name (the *vocabulary* pass);
- keeps the first occurrence of each term across all pages and numbers the terms (the
  *vocabulary table*);
- gives every term an empty *postings list* and appends to it the ID of every page whose
  paragraphs contain the term, once per page;
- answers a hero query by looking the query's term up in the vocabulary and reading its
  postings list.

Besides the pipeline, the model covers the text normalisers (`clean_text`, `clean_digits`,
`prepare_hero_name`, the title-to-file-name conversion), the reverse dictionary lookup
`extract_dictionary_key`, `construct_hero_information` and `extract_string_occurrences`.

The model is functional:

- A parsed page is a `Page` record: the texts of its paragraphs, hero-data values, hero-data
  labels and title elements, in document order. A directory entry is a `File`: a name and a
  page.
- The catalog, the vocabulary and the postings table are `map<int, …>`. Python builds each
  of these dictionaries by counting up from 0, so its insertion order is ascending key order.
  The reverse lookup "first key whose value matches" is therefore "least key whose value
  matches".
- Every `IndexError` and `KeyError` the code can raise is a `Result` error:
  - `NoSuchElement`: `[0]` of an empty selection;
  - `ValueNotFound`: a reverse lookup that finds nothing;
  - `KeyNotFound`: a dictionary subscript with a missing key.
- The stopword list is a `set<string>` parameter.
- Python iterates a `set` of terms in an order the code does not control (lines 74-75 and
  144-145). That order is a parameter: one duplicate-free enumeration per page (`orders`,
  constrained by `Vocabulary.ValidOrders`). Every property proved holds for every such
  order. `Postings.PostingOrderIrrelevant` shows that whether the postings pass succeeds, and
  the table it builds when it does, do not depend on it. Which error a failing pass reports can.

Modules, one per file:

- `Results` (`results.dfy`): the error kinds and `Result`.
- `Text` (`text.dfy`): character classes, deletion, lower-casing, `split()`, `split(" ")`,
  `translate` and `strip`.
- `Tables` (`tables.dfy`): `enumerate` into a map, the reverse lookup, first-occurrence
  deduplication, append-if-absent.
- `Pages` (`pages.dfy`): pages, the catalog, hero names, titles, hero information.
- `Vocabulary` (`vocabulary.dfy`): per-page term lists and the vocabulary table.
- `Postings` (`postings.dfy`): the postings table.
- `Search` (`search.dfy`): the hero query, as written and corrected.
- `Occurrences` (`occurrences.dfy`): counting detection terms in a text.

The documentation of `search_for_hero` says it lists the documents a hero appears in. The
code does not do this: whenever the query has a hit, line 310 fails. The model follows the
code. It also gives the corrected search with its proved property (see Findings).

## Model

| member | source | states |
|---|---|---|
| `Text.CleanText` | index.py:191-201 | the result holds no `string.punctuation` character, and every other character occurs in it exactly as often as in the input |
| `Text.CleanDigits` | index.py:204-214 | the result holds no digit, and every other character occurs in it exactly as often as in the input |
| `Text.RemoveKeepsOrder` | index.py:199-201 | deletion keeps the surviving characters in their original order: it is the position-by-position concatenation of the kept characters |
| `Text.RemoveAppend` | index.py:199-201 | deletion distributes over concatenation |
| `Text.RemoveKeepsClean` | index.py:212-214 | a string holding no deleted character is returned unchanged |
| `Text.RemoveComposes` | index.py:54-55 | deleting one class and then another deletes their union |
| `Text.CleanTextIdempotent` | index.py:199-201 | cleaning punctuation twice is cleaning it once |
| `Text.CleanDigitsIdempotent` | index.py:212-214 | cleaning digits twice is cleaning them once |
| `Text.CleanersCommute` | index.py:54-55 | the two cleaners commute, and together they delete punctuation and digits at once |
| `Text.CharacterClassesMatchConstants` | index.py:199-201 | the range tests accept exactly the characters of `string.punctuation` and `string.digits` |
| `Text.Lower` | index.py:74 | lower-casing keeps the length, maps each character through ASCII lower-casing and leaves no capital |
| `Text.LowerIdempotent` | index.py:74 | lower-casing twice is lower-casing once, and it neither creates nor destroys whitespace |
| `Text.Words` | index.py:73 | `split()` yields non-empty, whitespace-free runs of the input's characters |
| `Text.WordsOfWord` | index.py:73 | a non-empty string without whitespace is one word, kept whole |
| `Text.WordsSplitAtSpace` | index.py:73 | any whitespace character separates words: the words on either side of it, in order, and no word spans it |
| `Text.WordsKeepEveryOtherCharacter` | index.py:73 | the words of a string, concatenated, are the string with its whitespace deleted |
| `Text.BeforeFirst` | index.py:50 | `split(c)[0]` is a prefix free of `c`, followed in the input by `c` when shorter than it |
| `Text.SplitOn` | index.py:227 | `split(" ")` yields at least one piece, and no piece holds the separator |
| `Text.SplitOnCount` | index.py:227 | there is one more piece than there are separators |
| `Text.SplitOnChars` | index.py:227 | every character of a piece comes from the split string |
| `Text.SplitThenJoin` | index.py:227 | joining the pieces with the separator gives the split string back |
| `Text.JoinThenSplit` | index.py:227 | splitting separator-free pieces joined by the separator gives the pieces back |
| `Text.JoinAppend` | index.py:227 | joining two lists of pieces joins their joins with one more separator |
| `Text.SplitOnAppend` | index.py:227 | splitting two strings glued by one separator gives the pieces of each, in order |
| `Text.BeforeFirstOfPrefix` | index.py:50 | the part before the first separator is the separator-free piece that precedes it |
| `Text.Translate` | index.py:255-256 | `translate` with one mapped character replaces exactly that character at each position |
| `Text.LeadingSpace` | index.py:257 | the count of leading characters `strip` drops: all whitespace, and followed by a non-whitespace character if any |
| `Text.TrailingSpace` | index.py:257 | the count of trailing characters `strip` drops: all whitespace, and preceded by a non-whitespace character if any |
| `Text.Strip` | index.py:257 | `strip` returns the slice between the leading and the trailing whitespace, starting and ending with non-whitespace |
| `Tables.Enumerate` | index.py:20 | `enumerate` into a dict maps each position to the element there, with keys exactly 0..n-1 |
| `Tables.ExtractDictionaryKey` | index.py:233-243 | succeeds exactly when some key holds the value; returns the first such key in insertion order; otherwise fails with the `IndexError` |
| `Tables.LookupInverts` | index.py:242-243 | in a table with no repeated value, the reverse lookup of a key's value is that key |
| `Tables.LookupInEnumerate` | index.py:242-243 | the reverse lookup in a numbered list finds the first position holding the value |
| `Tables.EnumerateDistinct` | index.py:95 | numbering a duplicate-free list gives a table with no repeated value |
| `Tables.EnumerateValues` | index.py:95 | the values of a numbered list are the list's elements |
| `Tables.FirstIndex` | index.py:94 | the first position of an element holds it and no earlier position does |
| `Tables.Dedup` | index.py:94 | `dict.fromkeys` keeps each element once, the same elements, in order of first occurrence |
| `Tables.DedupSnoc` | index.py:94 | deduplicating a list extended by one element appends that element if new |
| `Tables.AppendAbsent` | index.py:151-152 | append-if-absent leaves the list unchanged exactly when the element is already in it, and otherwise appends it at the end; a duplicate-free list stays duplicate-free |
| `Tables.AppendAbsentIdempotent` | index.py:151-152 | appending the same element twice appends it once |
| `Tables.Flatten` | index.py:94 | an element of the concatenated lists is an element of one of them |
| `Tables.FlattenOne` | index.py:94 | concatenating a single list gives that list |
| `Tables.FlattenAppend` | index.py:94 | concatenation keeps the lists in order: two runs of lists concatenate to the two results, one after the other |
| `Pages.Names` | index.py:19 | the listing is the files' names in order |
| `Pages.IndexDocuments` | index.py:20 | the catalog maps ID `i` to the `i`-th listed file, for exactly the IDs 0..n-1 |
| `Pages.CatalogLookup` | index.py:147 | the catalog lookup of a name succeeds exactly for a listed name and returns its first listing position |
| `Pages.PrepareHeroName` | index.py:38-56 | a prepared hero name holds no space, hyphen, punctuation or digit |
| `Pages.PrepareHeroNameTruncates` | index.py:47-56 | the name is cut at the first `[` whenever there is one, wherever the `(` is; otherwise at the first `(`; then cleaned |
| `Pages.FirstOccurrenceIsBeforeFirst` | index.py:50-52 | the prefix before the first occurrence of a character is what `split(c)[0]` returns |
| `Pages.PrepareHeroNameKeepsPlainName` | index.py:47-56 | a name of characters no step touches is prepared to itself, capitals included (there is no lower-casing) |
| `Pages.PrepareHeroNameIdempotent` | index.py:47-56 | preparing a prepared name changes nothing |
| `Pages.ExtractDocumentTitle` | index.py:246-258 | the title fails exactly when the page has none; otherwise it holds no space, is no longer than the raw title and starts and ends with non-whitespace |
| `Pages.TitleIsUnderscoredSlice` | index.py:254-257 | the title is a slice of the raw title with spaces turned into underscores, cut only at surrounding whitespace |
| `Pages.DocumentName` | index.py:139 | the file name a page claims is its title followed by `.html`, and fails with the title's error exactly when the page has no title |
| `Pages.ZipToMap` | index.py:271-272 | `dict(zip(...))` has as keys the labels within the shorter length, and a label's value is that of its last pair |
| `Pages.ConstructHeroInformation` | index.py:269-273 | the hero information pairs labels with values positionally up to the shorter list; a later duplicate label overwrites an earlier one |
| `Vocabulary.PageWordsMembers` | index.py:70-74 | a word of the page is a word of one of its paragraphs |
| `Vocabulary.LowerWordIsTerm` | index.py:74 | lower-casing a cleaned, non-empty, whitespace-free word yields a normalised term |
| `Vocabulary.ParagraphWordsAreTerms` | index.py:71-74 | every word of the paragraph pipeline is non-empty and free of whitespace, punctuation, digits and capitals |
| `Vocabulary.ParagraphTerms` | index.py:70-75 | a paragraph term is exactly a non-stopword that is the lower-cased word of some cleaned paragraph |
| `Vocabulary.HeroTerm` | index.py:68-69 | the hero term exists exactly when the page has a hero value, and holds no space, punctuation, digit or capital; `Search.HeroTermIsQueryTerm` says which name it normalises |
| `Vocabulary.IndexVocabulary` | index.py:59-77 | a page's term list is its paragraph terms, each once, followed by the hero term; it fails exactly when the page has no hero value |
| `Vocabulary.ValidOrdersPrefix` | index.py:89-92 | the term orders of a prefix of the listing are valid for that prefix |
| `Vocabulary.TermLists` | index.py:88-92 | the loop collects one term list per page, in listing order, and fails exactly when some page has no hero value |
| `Vocabulary.TermListMembers` | index.py:70-76 | a page's term list holds its paragraph terms and its hero term and nothing else |
| `Vocabulary.RetrieveAllVocabulary` | index.py:94-95 | the vocabulary has keys exactly 0..N-1 and no repeated value, and fails exactly when some page has no hero value |
| `Vocabulary.EmptyVocabulary` | index.py:88-95 | an empty listing has an empty vocabulary |
| `Vocabulary.VocabularyValues` | index.py:94 | the vocabulary's terms are exactly the pages' paragraph terms and hero terms |
| `Vocabulary.HeroTermInVocabulary` | index.py:76 | every page's hero term is a vocabulary term, whether or not a paragraph yields it |
| `Vocabulary.VocabularyFollowsFirstOccurrence` | index.py:94-95 | a lower term ID means an earlier first occurrence in the concatenated term lists, and conversely |
| `Postings.ConstructPostingsTableBase` | index.py:112-123 | the base maps every vocabulary key to an empty list and leaves the other keys as they were |
| `Postings.DocumentId` | index.py:139-147 | a page's ID exists exactly when it has a title whose file name is in the catalog, and the catalog maps it back to that name |
| `Postings.PostTerms` | index.py:148-153 | posting a term list succeeds exactly when every term is in the vocabulary with an ID the table holds, and keeps the table's keys |
| `Postings.PostTermsContents` | index.py:148-153 | posting appends the ID, if absent, to the lists of the posted terms and leaves every other list as it was |
| `Postings.ConstructPostingsTable` | index.py:126-155 | one page's pass succeeds exactly when the page has an ID and all its paragraph terms are indexed; it keeps the keys; the page's ID error wins |
| `Postings.ConstructPostingsTableContents` | index.py:147-153 | one page's pass changes only the lists of its terms, keeps each old list as a prefix, grows a list by at most one entry and never creates a duplicate |
| `Postings.PostingOrderIrrelevant` | index.py:144-153 | whether one page's pass succeeds, and the table it builds when it does, do not depend on the iteration order of its term set |
| `Postings.PostedList` | index.py:148-153 | with an injective vocabulary, the list of term `k` gains the page ID exactly when the page's paragraphs yield the term |
| `Postings.PostAll` | index.py:172-175 | posting every page keeps the keys, keeps each base list as a prefix and keeps lists duplicate-free |
| `Postings.AllPostableSnoc` | index.py:172-175 | all pages of a listing can be posted exactly when all but the last can and the last can |
| `Postings.AllTermsIndexedSnoc` | index.py:172-175 | when every page's terms are indexed, so are those of all but the last page, and the last page's |
| `Postings.PostAllSucceeds` | index.py:172-175 | posting every page succeeds exactly when every page can be posted |
| `Postings.PostAllFailures` | index.py:172-175 | once every page's terms are indexed, a failure is a missing title or an unlisted file name |
| `Postings.PickMembers` | index.py:151-152 | an ID is picked exactly when some flagged position holds it |
| `Postings.DocumentIds` | index.py:147 | the listing's document IDs, one per page |
| `Postings.Contains` | index.py:140-145 | the flag of a page is set exactly when its paragraphs yield the term |
| `Postings.HitsMembers` | index.py:147-152 | an ID is a hit of a term exactly when some page with that ID yields the term |
| `Postings.HitsSnoc` | index.py:172-175 | the hits of a listing extended by one page gain that page's ID exactly when it yields the term |
| `Postings.PostAllContents` | index.py:170-175 | from empty base lists, each term's list is its hits, each once, in listing order of first hit |
| `Postings.Catalog` | index.py:167 | the catalog's values are exactly the listed names |
| `Postings.CreatePostingsTable` | index.py:158-176 | a built table has exactly the vocabulary's keys and only duplicate-free lists |
| `Postings.CreatePostingsTableSucceeds` | index.py:158-176 | building succeeds exactly when every page has a hero value and a title naming a listed file; a missing hero value is reported first |
| `Postings.BuiltVocabularyIndexesTerms` | index.py:140-150 | every paragraph term of every page is a vocabulary term whose ID the table holds, so lines 149-150 never fail |
| `Postings.PostableIffNamed` | index.py:139-147 | once terms are indexed, a page can be posted exactly when its title names a listed file |
| `Postings.CreatePostingsTableContents` | index.py:158-176 | in a built table each term's list is the IDs of the pages yielding it, each once, in listing order |
| `Postings.PostingsList` | index.py:158-176 | the list of one term of a built table is that term's deduplicated hits |
| `Postings.PostingsMembers` | index.py:147-153 | an ID is in a term's list exactly when some listed page with that ID yields the term |
| `Postings.HeroTermNotPosted` | index.py:76 | a hero term that no paragraph yields has an empty postings list |
| `Postings.UnpostedTerm` | index.py:140-153 | a vocabulary term no page's paragraphs yield keeps an empty list |
| `Postings.NoHits` | index.py:140-152 | a term no page yields has no hits |
| `Postings.PickNone` | index.py:151-152 | with no flag set nothing is picked |
| `Postings.DocumentIdIsListingPosition` | index.py:147 | a page's ID is the first listing position of the file name its title gives |
| `Search.QueryTerm` | index.py:307-308 | the query term holds no space, hyphen, punctuation, digit or capital |
| `Search.HeroTermIsQueryTerm` | index.py:68-69 | the vocabulary pass and the query normalise a hero name the same way: a page's hero term is the query term of its first hero value |
| `Search.SearchPostings` | index.py:307-309 | the lookup fails with the `IndexError` when the term is not in the vocabulary, else returns the list of its first ID or the `KeyError` |
| `Search.NameValues` | index.py:310 | every catalog value is a file name, never an integer |
| `Search.RetrieveDocumentsAsWritten` | index.py:310 | reverse-looking-up integer IDs among file names succeeds exactly for the empty list, and otherwise fails with the `IndexError` |
| `Search.SearchForHero` | index.py:296-311 | the search as written propagates the lookup errors, and succeeds on a found list exactly when that list is empty |
| `Search.SearchForHeroFailsOnHit` | index.py:307-310 | for every query, a one-page index posting the query's term makes the as-written search fail |
| `Search.RetrieveDocuments` | index.py:310 | mapping IDs forward succeeds exactly when the catalog holds every ID, and yields their names in order |
| `Search.RetrieveDocumentsInvertsLookup` | index.py:310 | mapping forward the IDs the reverse lookup found gives back the names looked up |
| `Search.SearchForHeroCorrected` | index.py:307-310 | the corrected search propagates the lookup errors and otherwise maps the found list forward |
| `Search.SearchBuiltIndex` | index.py:307-309 | on a built table the lookup fails exactly when the query's term is not in the vocabulary, and the `KeyError` never happens |
| `Search.SearchOwnHeroFindsPostings` | index.py:307-309 | searching a built index for a listed page's own first hero value always gets past the vocabulary lookup and retrieves the list the table holds for that page's hero term |
| `Search.SearchBuiltIndexMembers` | index.py:307-309 | on a built table the retrieved list holds an ID exactly when a listed page with that ID yields the query's term |
| `Search.SearchBuiltIndexHits` | index.py:307-309 | on a built table the retrieved list is the term's hits, each once |
| `Search.NoHitsIff` | index.py:147-152 | a term has no hits exactly when no listed page yields it |
| `Search.SearchForHeroOnBuiltIndex` | index.py:307-310 | on a built table the search as written succeeds exactly when the query's term is in the vocabulary and no page's paragraphs yield it |
| `Search.HitNamed` | index.py:147-152 | a hit is the catalog ID of a yielding page and names that page's file |
| `Search.NamedHit` | index.py:147-152 | every yielding page contributes its ID, which names its file |
| `Search.RetrievedNames` | index.py:310 | mapping held IDs forward yields exactly the names of those IDs |
| `Search.HitNames` | index.py:147-152 | the names of a term's hits are exactly the file names of the pages yielding it |
| `Search.SearchForHeroCorrectedOnBuiltIndex` | index.py:307-310 | on a built table the corrected search fails exactly when the query's term is not in the vocabulary, and returns exactly the file names of the pages whose paragraphs yield it |
| `Occurrences.Count` | index.py:229 | `count` is at most the length and is zero exactly when the element is absent |
| `Occurrences.CountIsMultiplicity` | index.py:229 | `count` agrees with the element's multiplicity in the list |
| `Occurrences.CountAppend` | index.py:229 | counts add up over concatenation |
| `Occurrences.CountedPieces` | index.py:226-228 | the counted pieces, joined by single spaces, are the lower-cased cleaned text; they are one more than its spaces and hold no space, punctuation or capital |
| `Occurrences.ExtractStringOccurrences` | index.py:217-230 | the result has one key per detection term, holding the multiplicity of the lower-cased term among the counted pieces |
| `Occurrences.OccurrencesIgnoreCase` | index.py:229 | a term counts the same as its lower-cased form |
| `Occurrences.UnsplittableTermNotCounted` | index.py:226-229 | a term holding a space or a punctuation character counts zero |
| `Occurrences.OccurrencesBounded` | index.py:227-229 | a count is at most one more than the number of spaces in the cleaned text |
| `Occurrences.EmptyTextOccurrences` | index.py:227-229 | on the empty text only the empty term counts, once |
| `Occurrences.CleanTextAppend` | index.py:226 | cleaning keeps the space that glues two texts |
| `Occurrences.CountedPiecesAppend` | index.py:226-228 | the pieces of two texts glued by a space are the pieces of each, in order |
| `Occurrences.OccurrencesAdd` | index.py:226-229 | the counts in two texts glued by a space are the sums of the counts in each |

## Left out

- File-system access is not modelled: `os.listdir`, `open`/`read`, `write_information`, `retrieve_directory_files` and the `save_*` functions. The directory listing and the pages are inputs.
- Console output is not modelled: `display_dictionary`, `display_list`, `print` and `main`. `search_for_hero` returns the list it would display.
- HTML parsing with BeautifulSoup (`select`, `find_all`, `.text`) is a foreign library. A page is a record of the texts it would select; `[0]` of an empty selection is the `NoSuchElement` error.
- Loading the NLTK stopword corpus is a foreign library; the stopwords are a parameter. `word_tokenize` and `time` are imported but unused.
- The iteration order of a Python `set` is not modelled. It is the `orders` parameter, and no property depends on a particular order.
- The model takes the directory to list the same names in the same order each time it is read. `create_postings_table` reads it three times (lines 87, 166, 167).
- `str.lower` is modelled for ASCII letters only; the case mappings of other Unicode letters are not modelled. `str.split()` and `str.strip()` use every character `str.isspace` accepts.
- Postings.PostTerms: when both a missing vocabulary term and a missing table key occur in one page, which error Python raises first depends on the set's iteration order. The contract says only that the error is one of the two. On a table built by `create_postings_table` neither occurs (`Postings.BuiltVocabularyIndexesTerms`).
- Postings.CreatePostingsTableSucceeds: when some page has no title naming a listed file, the error is `NoSuchElement` or `ValueNotFound`, depending on which of the two the first failing page has. The contract does not say which page fails first.
- Pages.PrepareHeroName: the hero-name examples are not evaluated on concrete strings. They follow from `Pages.PrepareHeroNameTruncates` and `Pages.PrepareHeroNameKeepsPlainName`.

## Findings

| source | as written | input that shows it | evidently intended | confidence | as-written member | corrected member |
|---|---|---|---|---|---|---|
| index.py:310 | each integer document ID of the postings list is reverse-looked-up among the document table's file-name values; no string equals an integer, so the lookup raises `IndexError` | any query whose term is posted for at least one page, e.g. a one-page index whose postings table is `{0: [0]}` and whose vocabulary maps `0` to the query's term | map each document ID forward to its file name, `document_table[document_id]`, so the search lists the files the hero appears in | not executed | `Search.SearchForHero` | `Search.SearchForHeroCorrected` |
