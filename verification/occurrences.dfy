/**
 `extract_string_occurrences`: how often each term of a detection list occurs, ignoring
 case, among the space-separated pieces of a text cleaned of punctuation.
 */
module Occurrences {
  import opened Text

  /** `xs.count(x)`: the number of elements of `xs` equal to `x`. */
  function Count(xs: seq<string>, x: string): (n: nat)
    ensures n <= |xs|
    ensures n == 0 <==> x !in xs
    decreases |xs|
  {
    if xs == [] then 0
    else
      var init := xs[..|xs| - 1];
      assert xs == init + [xs[|xs| - 1]];
      Count(init, x) + if xs[|xs| - 1] == x then 1 else 0
  }

  /** Counting agrees with the multiplicity of the element in the list's multiset. */
  lemma {:induction false} CountIsMultiplicity(xs: seq<string>, x: string)
    ensures Count(xs, x) == multiset(xs)[x]
    decreases |xs|
  {
    if xs != [] {
      var init := xs[..|xs| - 1];
      assert xs == init + [xs[|xs| - 1]];
      CountIsMultiplicity(init, x);
    }
  }

  /** Counts add up over concatenation. */
  lemma CountAppend(xs: seq<string>, ys: seq<string>, x: string)
    ensures Count(xs + ys, x) == Count(xs, x) + Count(ys, x)
  {
    CountIsMultiplicity(xs + ys, x);
    CountIsMultiplicity(xs, x);
    CountIsMultiplicity(ys, x);
    assert multiset(xs + ys) == multiset(xs) + multiset(ys);
  }

  /**
   The pieces the count runs over (lines 227-228): the text without punctuation, split at
   every single space, each piece lower-cased. Empty pieces are kept.
   */
  function CountedPieces(text: string): (r: seq<string>)
    ensures |r| == Occurrences(CleanText(text), ' ') + 1
    ensures forall i :: 0 <= i < |r| ==> ' ' !in r[i]
    ensures forall i, c :: 0 <= i < |r| && c in r[i] ==> !IsPunctuation(c) && !IsUpper(c)
    ensures Join(r, ' ') == Lower(CleanText(text))
  {
    var cleaned := CleanText(text);
    var parts := SplitOn(cleaned, ' ');
    var r := LowerAll(parts);
    SplitThenJoin(cleaned, ' ');
    JoinLowerAll(parts, ' ');
    SplitOnCount(cleaned, ' ');
    SplitOnChars(cleaned, ' ');
    forall i, c | 0 <= i < |r| && c in r[i] ensures ' ' != c && !IsPunctuation(c) && !IsUpper(c) {
      var j :| 0 <= j < |r[i]| && r[i][j] == c;
      assert parts[i][j] in parts[i] && parts[i][j] in cleaned;
    }
    r
  }

  /**
   `extract_string_occurrences`: one entry per detection term, holding how many counted pieces
   equal the lower-cased term. A term listed twice is one key.
   */
  function ExtractStringOccurrences(detection: seq<string>, text: string): (counts: map<string, nat>)
    ensures counts.Keys == set t | t in detection
    ensures forall t :: t in counts ==> counts[t] == multiset(CountedPieces(text))[Lower(t)]
  {
    var pieces := CountedPieces(text);
    forall t | t in detection ensures Count(pieces, Lower(t)) == multiset(pieces)[Lower(t)] {
      CountIsMultiplicity(pieces, Lower(t));
    }
    map t | t in detection :: Count(pieces, Lower(t))
  }

  /** Case does not matter: a term counts the same as its lower-cased form. */
  lemma OccurrencesIgnoreCase(detection: seq<string>, text: string, t: string)
    requires t in detection
    ensures ExtractStringOccurrences(detection, text)[t] == ExtractStringOccurrences([Lower(t)], text)[Lower(t)]
  {
    LowerIdempotent(t);
  }

  /**
   A term holding a space or a punctuation character never counts: the pieces are split at
   spaces and cleaned of punctuation, and lower-casing keeps both kinds of character.
   */
  lemma UnsplittableTermNotCounted(detection: seq<string>, text: string, t: string)
    requires t in detection
    requires exists c :: c in t && (c == ' ' || IsPunctuation(c))
    ensures ExtractStringOccurrences(detection, text)[t] == 0
  {
    var c :| c in t && (c == ' ' || IsPunctuation(c));
    var j :| 0 <= j < |t| && t[j] == c;
    var lowered := Lower(t);
    assert lowered[j] == c;
    assert lowered !in CountedPieces(text) by {
      forall i | 0 <= i < |CountedPieces(text)| ensures CountedPieces(text)[i] != lowered {
        assert lowered[j] in lowered;
      }
    }
  }

  /** A count never exceeds the number of pieces: one more than the spaces left after cleaning. */
  lemma OccurrencesBounded(detection: seq<string>, text: string, t: string)
    requires t in detection
    ensures ExtractStringOccurrences(detection, text)[t] <= Occurrences(CleanText(text), ' ') + 1
  {
    CountIsMultiplicity(CountedPieces(text), Lower(t));
  }

  /** On the empty text only the empty term counts, once: splitting "" yields one empty piece. */
  lemma EmptyTextOccurrences(detection: seq<string>, t: string)
    requires t in detection
    ensures ExtractStringOccurrences(detection, "")[t] == if t == "" then 1 else 0
  {
    assert CleanText("") == "";
    assert BeforeFirst("", ' ') == "";
    assert SplitOn("", ' ') == [""];
    assert CountedPieces("") == [""];
  }

  /** Cleaning does not touch the space that glues two texts. */
  lemma CleanTextAppend(a: string, b: string)
    ensures CleanText(a + [' '] + b) == CleanText(a) + [' '] + CleanText(b)
  {
    CharacterClassesMatchConstants();
    RemoveAppend(a + [' '], b, IsPunctuation);
    RemoveAppend(a, [' '], IsPunctuation);
    assert Remove([' '], IsPunctuation) == [' '];
  }

  /** The pieces of two texts glued by a space are the pieces of each, in order. */
  lemma CountedPiecesAppend(a: string, b: string)
    ensures CountedPieces(a + [' '] + b) == CountedPieces(a) + CountedPieces(b)
  {
    CleanTextAppend(a, b);
    SplitOnAppend(CleanText(a), CleanText(b), ' ');
    var xs := SplitOn(CleanText(a), ' ');
    var ys := SplitOn(CleanText(b), ' ');
    assert LowerAll(xs + ys) == LowerAll(xs) + LowerAll(ys);
  }

  /** Counting is additive: the counts in two texts glued by a space are the sums of the counts in each. */
  lemma OccurrencesAdd(detection: seq<string>, a: string, b: string, t: string)
    requires t in detection
    ensures ExtractStringOccurrences(detection, a + [' '] + b)[t] ==
            ExtractStringOccurrences(detection, a)[t] + ExtractStringOccurrences(detection, b)[t]
  {
    var xs, ys := CountedPieces(a), CountedPieces(b);
    CountedPiecesAppend(a, b);
    assert multiset(xs + ys) == multiset(xs) + multiset(ys);
    assert ExtractStringOccurrences(detection, a + [' '] + b)[t] == multiset(xs + ys)[Lower(t)];
  }
}
